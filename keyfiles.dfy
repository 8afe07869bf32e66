/**
 * Key generation on disk (reop.c:1056-1088): generate makes a key pair and
 * writes the secret key file, then the public key file. Each file is created
 * with O_EXCL, so an existing file is never overwritten; when no name is given
 * the files are ~/.reop/seckey and ~/.reop/pubkey.
 */
module KeyFiles {
  import opened Common
  import opened Layout
  import opened Sodium
  import opened Base64
  import opened Armor
  import opened Keys
  import opened Keyring

  /** The file a command uses: the one named, or ~/.reop/<name>. */
  function FileOrHome(env: Env, file: Option<CString>, name: bytes): (r: Option<bytes>)
    ensures file.Some? ==> r.Some? && r.value == file.value
    ensures file.None? ==> r == HomeFile(env, name)
  {
    if file.Some? then Some(file.value) else HomeFile(env, name)
  }

  /**
   * What is on disk after a step of generate, and the error it stopped with
   * (None when it ran to the end). An error is fatal (errx), so a file
   * written by an earlier step stays behind.
   */
  datatype Disk = Disk(env: Env, failure: Option<Error>)

  /**
   * One key file: "no seckeyfile"/"no pubkeyfile" (`missing`) when there is no
   * name, "can't open ... for writing" when the file exists (O_EXCL). The file
   * is created before the key is encoded, so an encoder error leaves it
   * empty; otherwise it holds the key data up to its first NUL.
   */
  function Store(env: Env, name: Option<bytes>, missing: Error, data: Result<bytes>): (r: Disk)
    ensures r.failure.None? <==> name.Some? && name.value !in env.files && data.Ok?
    ensures name.None? ==> r == Disk(env, Some(missing))
    ensures name.Some? && name.value in env.files ==> r == Disk(env, Some(CantOpenForWriting))
    ensures name.Some? && name.value !in env.files ==>
      r.env == env.(files := env.files[name.value := if data.Ok? then CStr(data.value) else []])
      && (data.Err? ==> r.failure == Some(data.error))
  {
    match name
    case None => Disk(env, Some(missing))
    case Some(n) =>
      if n in env.files then Disk(env, Some(CantOpenForWriting))
      else
        match data
        case Err(e) => Disk(env.(files := env.files[n := []]), Some(e))
        case Ok(d) => Disk(env.(files := env.files[n := CStr(d)]), None)
  }

  /**
   * What generate leaves on disk for a key pair: the secret key file, then
   * the public key file. No existing file is overwritten, and the secret key
   * file stays written when the public key step fails.
   */
  function WriteKeys(c: Codec, p: Primitives, env: Env, pubkeyfile: Option<CString>,
                     seckeyfile: Option<CString>, pk: PubKey, sk: SecKey, password: Option<CString>,
                     prompt: CString, salt: Salt16, nonce: Nonce24): (r: Disk)
    ensures FileOrHome(env, seckeyfile, SecKeyName).None? ==> r == Disk(env, Some(NoSecKeyFile))
    ensures r.env.home == env.home && r.env.reopDir == env.reopDir && r.env.keyring == env.keyring
    ensures forall n :: n in env.files ==> n in r.env.files && r.env.files[n] == env.files[n]
    ensures var secname := FileOrHome(env, seckeyfile, SecKeyName);
      var secdata := EncodeSecKey(c, p, sk, password, prompt, salt, nonce);
      secname.Some? && secname.value !in env.files && secdata.Ok? ==>
        secname.value in r.env.files && r.env.files[secname.value] == CStr(secdata.value)
  {
    var sec := Store(env, FileOrHome(env, seckeyfile, SecKeyName), NoSecKeyFile,
                     EncodeSecKey(c, p, sk, password, prompt, salt, nonce));
    if sec.failure.Some? then sec
    else Store(sec.env, FileOrHome(sec.env, pubkeyfile, PubKeyName), NoPubKeyFile, EncodePubKey(c, pk))
  }

  /** One file step as the code runs it: xopenorfail, then the encoded key, then writeall. */
  method StoreFile(env: Env, name: Option<bytes>, missing: Error, data: Result<bytes>) returns (r: Disk)
    ensures r == Store(env, name, missing, data)
  {
    if name.None? {
      return Disk(env, Some(missing));
    }
    if name.value in env.files {
      return Disk(env, Some(CantOpenForWriting));
    }
    var files := env.files[name.value := []];
    if data.Err? {
      return Disk(env.(files := files), Some(data.error));
    }
    files := files[name.value := CStr(data.value)];
    r := Disk(env.(files := files), None);
  }

  /** generate as the code runs it: the key pair first, then one file after the other. */
  method GenerateFiles(c: Codec, p: Primitives, env: Env, pubkeyfile: Option<CString>,
                  seckeyfile: Option<CString>, ident: CString, password: Option<CString>,
                  prompt: CString, sigsk: Key64, encsk: Key32, randomid: Id8, salt: Salt16,
                  nonce: Nonce24)
    returns (r: Disk, pk: PubKey, sk: SecKey)
    ensures KeyPair(p, pk, sk) && pk.ident == Take(ident, 63) && pk.randomid == randomid
    ensures r == WriteKeys(c, p, env, pubkeyfile, seckeyfile, pk, sk, password, prompt, salt, nonce)
  {
    pk, sk := Keys.Generate(p, ident, sigsk, encsk, randomid);
    r := StoreFile(env, FileOrHome(env, seckeyfile, SecKeyName), NoSecKeyFile,
                   EncodeSecKey(c, p, sk, password, prompt, salt, nonce));
    if r.failure.None? {
      r := StoreFile(r.env, FileOrHome(r.env, pubkeyfile, PubKeyName), NoPubKeyFile, EncodePubKey(c, pk));
    }
  }

  /**
   * A generate that got as far as creating the secret key file leaves it
   * behind whatever happens next, so running it again with the same names
   * stops at "can't open ... for writing" and changes nothing; when the
   * public key file has no name, the secret key file is complete.
   */
  lemma LeftBehind(c: Codec, p: Primitives, env: Env, pubkeyfile: Option<CString>,
                   seckeyfile: Option<CString>, pk: PubKey, sk: SecKey, password: Option<CString>,
                   prompt: CString, salt: Salt16, nonce: Nonce24,
                   pk2: PubKey, sk2: SecKey, password2: Option<CString>, salt2: Salt16, nonce2: Nonce24)
    requires FileOrHome(env, seckeyfile, SecKeyName).Some?
    requires FileOrHome(env, seckeyfile, SecKeyName).value !in env.files
    ensures var r := WriteKeys(c, p, env, pubkeyfile, seckeyfile, pk, sk, password, prompt, salt, nonce);
      FileOrHome(env, seckeyfile, SecKeyName).value in r.env.files
      && WriteKeys(c, p, r.env, pubkeyfile, seckeyfile, pk2, sk2, password2, prompt, salt2, nonce2)
         == Disk(r.env, Some(CantOpenForWriting))
    ensures var r := WriteKeys(c, p, env, pubkeyfile, seckeyfile, pk, sk, password, prompt, salt, nonce);
      EncodeSecKey(c, p, sk, password, prompt, salt, nonce).Ok? && FileOrHome(env, pubkeyfile, PubKeyName).None? ==>
        r.failure == Some(NoPubKeyFile)
        && r.env.files == env.files[FileOrHome(env, seckeyfile, SecKeyName).value :=
                                    CStr(EncodeSecKey(c, p, sk, password, prompt, salt, nonce).value)]
  {
    var secname := FileOrHome(env, seckeyfile, SecKeyName).value;
    var sec := Store(env, Some(secname), NoSecKeyFile, EncodeSecKey(c, p, sk, password, prompt, salt, nonce));
    assert secname in sec.env.files;
    assert FileOrHome(sec.env, pubkeyfile, PubKeyName) == FileOrHome(env, pubkeyfile, PubKeyName);
    var r := WriteKeys(c, p, env, pubkeyfile, seckeyfile, pk, sk, password, prompt, salt, nonce);
    assert FileOrHome(r.env, seckeyfile, SecKeyName) == Some(secname);
  }

  /** A public key file written by generate reads back, through getpubkey, as the key. */
  lemma ReadPubKeyFile(c: Codec, env: Env, pubkeyfile: Option<CString>, name: bytes, pk: PubKey)
    requires Lawful(c) && IdentOk(pk.ident) && EncodePubKey(c, pk).Ok?
    requires FileOrHome(env, pubkeyfile, PubKeyName) == Some(name) && name in env.files
    requires env.files[name] == CStr(EncodePubKey(c, pk).value)
    ensures GetPubKey(c, env, pubkeyfile, None) == Ok(pk)
  {
    var pubdata := EncodePubKey(c, pk).value;
    PubKeyArmorRoundTrip(c, pk);
    CStrOfCStr(pubdata);
    assert ParsePubKey(c, CStr(pubdata)) == Ok(pk);
  }

  /** A secret key file written by generate opens, through getseckey, as the same key. */
  lemma ReadSecKeyFile(c: Codec, p: Primitives, env: Env, seckeyfile: Option<CString>, name: bytes,
                       sk: SecKey, password: Option<CString>, prompt: CString, salt: Salt16, nonce: Nonce24,
                       password2: Option<CString>, prompt2: CString)
    requires Lawful(c) && IdentOk(sk.ident) && sk.kdfalg == KdfAlg
    requires EncodeSecKey(c, p, sk, password, prompt, salt, nonce).Ok?
    requires FileOrHome(env, seckeyfile, SecKeyName) == Some(name) && name in env.files
    requires env.files[name] == CStr(EncodeSecKey(c, p, sk, password, prompt, salt, nonce).value)
    requires EmptyPassword(password) || Passphrase(password2, prompt2) == Passphrase(password, prompt)
    ensures var r := GetSecKey(c, p, env, seckeyfile, password2, prompt2);
      r.Ok? && SameKey(sk, r.value)
  {
    ParseEncodeSecKey(c, p, sk, password, prompt, salt, nonce, password2, prompt2);
    GetSecKeyFile(c, p, env, seckeyfile, name, EncodeSecKey(c, p, sk, password, prompt, salt, nonce).value,
                  password2, prompt2);
  }

  /** getseckey on a file holding key data up to its first NUL parses that key data. */
  lemma GetSecKeyFile(c: Codec, p: Primitives, env: Env, seckeyfile: Option<CString>, name: bytes,
                      data: bytes, password: Option<CString>, prompt: CString)
    requires FileOrHome(env, seckeyfile, SecKeyName) == Some(name) && name in env.files
    requires env.files[name] == CStr(data) && ParseSecKey(c, p, data, password, prompt).Ok?
    ensures GetSecKey(c, p, env, seckeyfile, password, prompt) == ParseSecKey(c, p, data, password, prompt)
  {
    CStrOfCStr(data);
    assert ParseKeyData(c, CStr(data), SecretKeyInfo, SecKeySize) == ParseKeyData(c, data, SecretKeyInfo, SecKeySize);
  }

  /** Where WriteKeys puts the two keys: each under the name it chose, up to the first NUL. */
  lemma WrittenFiles(c: Codec, p: Primitives, env: Env, pubkeyfile: Option<CString>,
                     seckeyfile: Option<CString>, pk: PubKey, sk: SecKey, password: Option<CString>,
                     prompt: CString, salt: Salt16, nonce: Nonce24)
    requires WriteKeys(c, p, env, pubkeyfile, seckeyfile, pk, sk, password, prompt, salt, nonce).failure.None?
    ensures var env2 := WriteKeys(c, p, env, pubkeyfile, seckeyfile, pk, sk, password, prompt, salt, nonce).env;
      var secname := FileOrHome(env2, seckeyfile, SecKeyName);
      var pubname := FileOrHome(env2, pubkeyfile, PubKeyName);
      secname.Some? && secname.value in env2.files && pubname.Some? && pubname.value in env2.files
      && secname.value !in env.files && pubname.value !in env.files && secname.value != pubname.value
      && EncodeSecKey(c, p, sk, password, prompt, salt, nonce).Ok? && EncodePubKey(c, pk).Ok?
      && env2.files[secname.value] == CStr(EncodeSecKey(c, p, sk, password, prompt, salt, nonce).value)
      && env2.files[pubname.value] == CStr(EncodePubKey(c, pk).value)
  {
    var secname := FileOrHome(env, seckeyfile, SecKeyName).value;
    var secdata := EncodeSecKey(c, p, sk, password, prompt, salt, nonce).value;
    var env1 := env.(files := env.files[secname := CStr(secdata)]);
    assert FileOrHome(env1, pubkeyfile, PubKeyName) == FileOrHome(env, pubkeyfile, PubKeyName);
    var pubname := FileOrHome(env, pubkeyfile, PubKeyName).value;
    var pubdata := EncodePubKey(c, pk).value;
    var env2 := env1.(files := env1.files[pubname := CStr(pubdata)]);
    assert WriteKeys(c, p, env, pubkeyfile, seckeyfile, pk, sk, password, prompt, salt, nonce) == Disk(env2, None);
    assert FileOrHome(env2, pubkeyfile, PubKeyName) == Some(pubname);
    assert FileOrHome(env2, seckeyfile, SecKeyName) == Some(secname);
  }

  /**
   * The key files generate writes read back: the public key file (by the
   * name given, or the default one) gives the public key, and the secret key
   * file opens, with the passphrase it was written with, to a secret key
   * that pairs with it.
   */
  lemma WrittenKeysReadBack(c: Codec, p: Primitives, env: Env, pubkeyfile: Option<CString>,
                            seckeyfile: Option<CString>, pk: PubKey, sk: SecKey,
                            password: Option<CString>, prompt: CString, salt: Salt16, nonce: Nonce24,
                            password2: Option<CString>, prompt2: CString)
    requires Lawful(c) && KeyPair(p, pk, sk) && IdentOk(sk.ident)
    requires WriteKeys(c, p, env, pubkeyfile, seckeyfile, pk, sk, password, prompt, salt, nonce).failure.None?
    requires EmptyPassword(password) || Passphrase(password2, prompt2) == Passphrase(password, prompt)
    ensures var env2 := WriteKeys(c, p, env, pubkeyfile, seckeyfile, pk, sk, password, prompt, salt, nonce).env;
      GetPubKey(c, env2, pubkeyfile, None) == Ok(pk)
      && GetSecKey(c, p, env2, seckeyfile, password2, prompt2).Ok?
      && KeyPair(p, pk, GetSecKey(c, p, env2, seckeyfile, password2, prompt2).value)
  {
    var env2 := WriteKeys(c, p, env, pubkeyfile, seckeyfile, pk, sk, password, prompt, salt, nonce).env;
    WrittenFiles(c, p, env, pubkeyfile, seckeyfile, pk, sk, password, prompt, salt, nonce);
    var secname := FileOrHome(env2, seckeyfile, SecKeyName).value;
    var pubname := FileOrHome(env2, pubkeyfile, PubKeyName).value;
    ReadPubKeyFile(c, env2, pubkeyfile, pubname, pk);
    ReadSecKeyFile(c, p, env2, seckeyfile, secname, sk, password, prompt, salt, nonce, password2, prompt2);
    var k := GetSecKey(c, p, env2, seckeyfile, password2, prompt2).value;
    KeyPairSameKey(p, pk, sk, k);
  }
}
