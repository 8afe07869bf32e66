/**
 * The command line of reop (reop.c:1673-1867) and of its Python front end
 * (python/main.py). Both turn the flags into one call of the file-level
 * operations, or into a usage error. The model stops at that decision: an
 * `Action` names the operation and the arguments it is called with.
 *
 * getopt itself is a library routine; what it hands to the switch in main is
 * the list of option letters with their arguments, in order (`Opt`), and the
 * number of operands left over. A letter getopt does not know, or a missing
 * argument, reaches the switch as '?'.
 */
module Cli {
  import opened Common
  import opened Keyring

  datatype Verb = NoVerb | Agent | Decrypt | Encrypt | Generate | Sign | Verify

  /** The variables main fills in while reading the options. */
  datatype Options = Options(verb: Verb, v1compat: bool, binary: bool, embedded: bool, quiet: bool,
                             password: Option<CString>, ident: Option<CString>, msgfile: Option<CString>,
                             pubkeyfile: Option<CString>, seckeyfile: Option<CString>,
                             xfile: Option<CString>, sockname: Option<CString>)

  const NoOptions := Options(NoVerb, false, false, false, false, None, None, None, None, None, None, None)

  /** One option as getopt returns it: its letter and, for "i:m:p:s:x:z:", its argument. */
  datatype Opt = Opt(ch: char, arg: CString)

  /** What the environment supplies: $USER and $HOME. */
  datatype Shell = Shell(user: Option<CString>, home: Option<CString>)

  /** The operation main ends in, with its arguments. */
  datatype Action =
    | DecryptFile(pubkeyfile: Option<CString>, seckeyfile: Option<CString>, msgfile: CString,
                  xfile: Option<CString>)
    | PubEncrypt(v1: bool, pubkeyfile: Option<CString>, ident: Option<CString>,
                 seckeyfile: Option<CString>, msgfile: CString, xfile: Option<CString>, binary: bool)
    | SymEncrypt(msgfile: CString, xfile: Option<CString>, binary: bool)
    | GenerateKeys(pubkeyfile: Option<CString>, seckeyfile: Option<CString>, identity: CString,
                   password: Option<CString>, mkdir: Option<bytes>)
    | SignFile(seckeyfile: Option<CString>, msgfile: CString, sigfile: CString, embedded: bool)
    | VerifySimple(pubkeyfile: Option<CString>, msgfile: CString, sigfile: CString, quiet: bool)
    | VerifyEmbedded(pubkeyfile: Option<CString>, sigfile: CString, quiet: bool)

  // ---------------------------------------------------------------- the options loop

  predicate IsVerbLetter(ch: char) {
    ch == 'D' || ch == 'E' || ch == 'G' || ch == 'S' || ch == 'V' || ch == 'Z'
  }

  /** The letters the switch in main handles; 'C' is in getopt's string but not in the switch. */
  predicate Known(ch: char) {
    IsVerbLetter(ch) || ch == '1' || ch == 'b' || ch == 'e' || ch == 'i' || ch == 'm' || ch == 'n'
    || ch == 'p' || ch == 'q' || ch == 's' || ch == 'x' || ch == 'z'
  }

  function VerbOf(ch: char): Verb
    requires IsVerbLetter(ch)
  {
    if ch == 'D' then Decrypt else if ch == 'E' then Encrypt else if ch == 'G' then Generate
    else if ch == 'S' then Sign else if ch == 'V' then Verify else Agent
  }

  /** One turn of the switch: a second verb, or a letter it does not handle, is a usage error. */
  function Apply(o: Options, x: Opt): (r: Result<Options>)
    ensures r.Err? ==> r.error == Usage
  {
    if IsVerbLetter(x.ch) then
      if o.verb != NoVerb then Err(Usage) else Ok(o.(verb := VerbOf(x.ch)))
    else if x.ch == '1' then Ok(o.(v1compat := true))
    else if x.ch == 'b' then Ok(o.(binary := true))
    else if x.ch == 'e' then Ok(o.(embedded := true))
    else if x.ch == 'i' then Ok(o.(ident := Some(x.arg)))
    else if x.ch == 'm' then Ok(o.(msgfile := Some(x.arg)))
    else if x.ch == 'n' then Ok(o.(password := Some(NoPassword)))
    else if x.ch == 'p' then Ok(o.(pubkeyfile := Some(x.arg)))
    else if x.ch == 'q' then Ok(o.(quiet := true))
    else if x.ch == 's' then Ok(o.(seckeyfile := Some(x.arg)))
    else if x.ch == 'x' then Ok(o.(xfile := Some(x.arg)))
    else if x.ch == 'z' then Ok(o.(sockname := Some(x.arg)))
    else Err(Usage)
  }

  /** The options after the whole list, one option at a time. */
  function Parsed(opts: seq<Opt>): (r: Result<Options>)
    ensures r.Err? ==> r.error == Usage
  {
    if |opts| == 0 then Ok(NoOptions)
    else
      match Parsed(opts[..|opts| - 1])
      case Err(e) => Err(e)
      case Ok(o) => Apply(o, opts[|opts| - 1])
  }

  /** The number of verb letters in the list. */
  function VerbLetters(opts: seq<Opt>): nat
  {
    if |opts| == 0 then 0
    else VerbLetters(opts[..|opts| - 1]) + if IsVerbLetter(opts[|opts| - 1].ch) then 1 else 0
  }

  /** The argument of the last option with this letter: a repeated option keeps the last one. */
  function LastArg(opts: seq<Opt>, ch: char): (r: Option<CString>)
    ensures r.Some? ==> exists i :: 0 <= i < |opts| && opts[i].ch == ch && opts[i].arg == r.value
    ensures r.None? <==> forall i :: 0 <= i < |opts| ==> opts[i].ch != ch
  {
    if |opts| == 0 then None
    else if opts[|opts| - 1].ch == ch then Some(opts[|opts| - 1].arg)
    else LastArg(opts[..|opts| - 1], ch)
  }

  /** Whether a flag letter was given at all. */
  predicate Given(opts: seq<Opt>, ch: char) {
    exists i :: 0 <= i < |opts| && opts[i].ch == ch
  }

  /**
   * The options loop in main (reop.c:1696-1765), stopping at the first usage
   * error as usage() does.
   */
  method ParseOptions(opts: seq<Opt>) returns (r: Result<Options>)
    ensures r == Parsed(opts)
  {
    var o := NoOptions;
    var i := 0;
    while i < |opts|
      invariant 0 <= i <= |opts|
      invariant Parsed(opts[..i]) == Ok(o)
    {
      assert opts[..i + 1][..i] == opts[..i];
      var step := Apply(o, opts[i]);
      if step.Err? {
        ParsedStops(opts, i + 1);
        return step;
      }
      o := step.value;
      i := i + 1;
    }
    assert opts[..i] == opts;
    r := Ok(o);
  }

  /** Once the loop has failed, the rest of the list does not matter. */
  lemma {:induction false} ParsedStops(opts: seq<Opt>, k: nat)
    requires k <= |opts| && Parsed(opts[..k]).Err?
    ensures Parsed(opts) == Parsed(opts[..k])
    decreases |opts| - k
  {
    if k < |opts| {
      assert opts[..k + 1][..k] == opts[..k];
      ParsedStops(opts, k + 1);
    } else {
      assert opts[..k] == opts;
    }
  }

  /**
   * The options are accepted exactly when every letter is one the switch
   * handles and at most one verb is given; the verb is set exactly when one
   * is given.
   */
  lemma {:induction false} ParsedAccepts(opts: seq<Opt>)
    ensures Parsed(opts).Ok? <==>
      (forall i :: 0 <= i < |opts| ==> Known(opts[i].ch)) && VerbLetters(opts) <= 1
    ensures Parsed(opts).Ok? ==> (Parsed(opts).value.verb == NoVerb <==> VerbLetters(opts) == 0)
  {
    if |opts| > 0 {
      var init := opts[..|opts| - 1];
      ParsedAccepts(init);
      assert forall i :: 0 <= i < |init| ==> init[i] == opts[i];
      if Parsed(init).Ok? && !Known(opts[|opts| - 1].ch) {
        assert Parsed(opts).Err?;
      }
    }
  }

  predicate ArgLetter(ch: char) {
    ch == 'i' || ch == 'm' || ch == 'p' || ch == 's' || ch == 'x' || ch == 'z'
  }

  /** The variable an argument option sets. */
  function ArgField(o: Options, ch: char): Option<CString>
    requires ArgLetter(ch)
  {
    if ch == 'i' then o.ident else if ch == 'm' then o.msgfile else if ch == 'p' then o.pubkeyfile
    else if ch == 's' then o.seckeyfile else if ch == 'x' then o.xfile else o.sockname
  }

  /** One turn of the switch sets the variable of its own letter and no other. */
  lemma ApplyArg(o: Options, x: Opt, ch: char)
    requires ArgLetter(ch) && Apply(o, x).Ok?
    ensures ArgField(Apply(o, x).value, ch) == if x.ch == ch then Some(x.arg) else ArgField(o, ch)
  {
  }

  /** What the options loop collects: an argument option keeps its last argument. */
  lemma {:induction false} ParsedArg(opts: seq<Opt>, ch: char)
    requires ArgLetter(ch) && Parsed(opts).Ok?
    ensures ArgField(Parsed(opts).value, ch) == LastArg(opts, ch)
  {
    if |opts| > 0 {
      ParsedArg(opts[..|opts| - 1], ch);
      ApplyArg(Parsed(opts[..|opts| - 1]).value, opts[|opts| - 1], ch);
    }
  }

  /** The argument options, one by one. */
  lemma ParsedArgs(opts: seq<Opt>)
    requires Parsed(opts).Ok?
    ensures var o := Parsed(opts).value;
      o.ident == LastArg(opts, 'i') && o.msgfile == LastArg(opts, 'm')
      && o.pubkeyfile == LastArg(opts, 'p') && o.seckeyfile == LastArg(opts, 's')
      && o.xfile == LastArg(opts, 'x') && o.sockname == LastArg(opts, 'z')
  {
    ParsedArg(opts, 'i');
    ParsedArg(opts, 'm');
    ParsedArg(opts, 'p');
    ParsedArg(opts, 's');
    ParsedArg(opts, 'x');
    ParsedArg(opts, 'z');
  }

  predicate SwitchLetter(ch: char) {
    ch == '1' || ch == 'b' || ch == 'e' || ch == 'n' || ch == 'q'
  }

  /** Whether the variable a switch sets is set (-n: the passphrase is the empty one). */
  predicate SwitchOn(o: Options, ch: char)
    requires SwitchLetter(ch)
  {
    if ch == '1' then o.v1compat else if ch == 'b' then o.binary else if ch == 'e' then o.embedded
    else if ch == 'n' then o.password.Some? else o.quiet
  }

  /** One turn of the switch turns on its own switch and no other. */
  lemma ApplySwitch(o: Options, x: Opt, ch: char)
    requires SwitchLetter(ch) && Apply(o, x).Ok?
    ensures SwitchOn(Apply(o, x).value, ch) <==> SwitchOn(o, ch) || x.ch == ch
    ensures Apply(o, x).value.password == if x.ch == 'n' then Some(NoPassword) else o.password
  {
  }

  lemma {:induction false} ParsedSwitch(opts: seq<Opt>, ch: char)
    requires SwitchLetter(ch) && Parsed(opts).Ok?
    ensures SwitchOn(Parsed(opts).value, ch) <==> Given(opts, ch)
    ensures Parsed(opts).value.password.Some? ==> Parsed(opts).value.password.value == NoPassword
  {
    if |opts| > 0 {
      ParsedSwitch(opts[..|opts| - 1], ch);
      ApplySwitch(Parsed(opts[..|opts| - 1]).value, opts[|opts| - 1], ch);
      GivenSnoc(opts, ch);
    }
  }

  /** Each switch is on exactly when its letter was given; -n sets the empty passphrase. */
  lemma ParsedSwitches(opts: seq<Opt>)
    requires Parsed(opts).Ok?
    ensures var o := Parsed(opts).value;
      (o.v1compat <==> Given(opts, '1')) && (o.binary <==> Given(opts, 'b'))
      && (o.embedded <==> Given(opts, 'e')) && (o.quiet <==> Given(opts, 'q'))
      && (o.password == if Given(opts, 'n') then Some(NoPassword) else None)
  {
    ParsedSwitch(opts, '1');
    ParsedSwitch(opts, 'b');
    ParsedSwitch(opts, 'e');
    ParsedSwitch(opts, 'q');
    ParsedSwitch(opts, 'n');
  }

  lemma GivenSnoc(opts: seq<Opt>, ch: char)
    requires |opts| > 0
    ensures Given(opts, ch) <==> Given(opts[..|opts| - 1], ch) || opts[|opts| - 1].ch == ch
  {
    var init := opts[..|opts| - 1];
    if Given(opts, ch) && opts[|opts| - 1].ch != ch {
      var i :| 0 <= i < |opts| && opts[i].ch == ch;
      assert init[i].ch == ch;
    }
    if Given(init, ch) {
      var i :| 0 <= i < |init| && init[i].ch == ch;
      assert opts[i].ch == ch;
    }
  }

  // ---------------------------------------------------------------- the two switches

  const EncSuffix: CString := ".enc"
  const SigSuffix: CString := ".sig"
  const Dash: CString := "-"
  const Unknown: CString := "unknown"
  /** -n: the empty passphrase. */
  const NoPassword: CString := []

  /**
   * The name derived from the message file: "-" (standard input) has none,
   * and a name that does not fit the 1024-byte buffer is "path too long".
   */
  function DerivedName(msgfile: CString, suffix: CString): (r: Result<CString>)
    ensures msgfile == Dash ==> r == Err(Usage)
    ensures msgfile != Dash && |msgfile| + |suffix| >= PathBuffer ==> r == Err(PathTooLong)
    ensures r.Ok? ==> |r.value| == |msgfile| + |suffix| < PathBuffer && r.value[..|msgfile|] == msgfile
                      && r.value[|msgfile|..] == suffix
  {
    if msgfile == Dash then Err(Usage)
    else if |msgfile| + |suffix| >= PathBuffer then Err(PathTooLong)
    else
      var name: CString := msgfile + suffix;
      Ok(name)
  }

  /** The identity -G uses: -i, else $USER, else "unknown". */
  function DefaultIdent(ident: Option<CString>, user: Option<CString>): (r: CString)
    ensures ident.Some? ==> r == ident.value
    ensures ident.None? && user.Some? ==> r == user.value
    ensures ident.None? && user.None? ==> r == Unknown
  {
    if ident.Some? then ident.value else if user.Some? then user.value else Unknown
  }

  /** What the first switch guarantees to the second. */
  predicate Checked(o: Options) {
    ((o.verb == Encrypt || o.verb == Decrypt) ==> o.msgfile.Some? && o.xfile.Some?)
    && ((o.verb == Sign || o.verb == Verify) && o.msgfile.Some? ==> o.xfile.Some?)
  }

  /** The first switch in main (reop.c:1769-1805): the message file and the default -x name. */
  function Names(o: Options): (r: Result<Options>)
    ensures r.Ok? ==> Checked(r.value) && r.value == o.(xfile := r.value.xfile)
    ensures r.Ok? && o.xfile.Some? ==> r.value.xfile == o.xfile
  {
    if o.verb == Agent then
      if o.sockname.None? then Err(Usage) else Ok(o)
    else if o.verb == Encrypt || o.verb == Decrypt then
      if o.msgfile.None? then Err(Usage)
      else if o.xfile.Some? then Ok(o)
      else
        match DerivedName(o.msgfile.value, EncSuffix)
        case Err(e) => Err(e)
        case Ok(x) => Ok(o.(xfile := Some(x)))
    else if (o.verb == Sign || o.verb == Verify) && o.xfile.None? && o.msgfile.Some? then
      match DerivedName(o.msgfile.value, SigSuffix)
      case Err(e) => Err(e)
      case Ok(x) => Ok(o.(xfile := Some(x)))
    else Ok(o)
  }

  /** The second switch in main (reop.c:1807-1864): the operation and its arguments. */
  function Run(o: Options, sh: Shell): (r: Result<Action>)
    requires Checked(o)
    ensures r.Err? ==> r.error in {Usage, CantFindHome}
  {
    match o.verb
    case Decrypt => Ok(DecryptFile(o.pubkeyfile, o.seckeyfile, o.msgfile.value, o.xfile))
    case Encrypt =>
      if o.seckeyfile.Some? && o.pubkeyfile.None? && o.ident.None? then Err(Usage)
      else if o.pubkeyfile.Some? || o.ident.Some? then
        Ok(PubEncrypt(o.v1compat, o.pubkeyfile, o.ident, o.seckeyfile, o.msgfile.value, o.xfile, o.binary))
      else Ok(SymEncrypt(o.msgfile.value, o.xfile, o.binary))
    case Generate =>
      var ident := DefaultIdent(o.ident, sh.user);
      if o.pubkeyfile.Some? != o.seckeyfile.Some? then Err(Usage)
      else if o.pubkeyfile.Some? then Ok(GenerateKeys(o.pubkeyfile, o.seckeyfile, ident, o.password, None))
      else if sh.home.None? then Err(CantFindHome)
      else Ok(GenerateKeys(None, None, ident, o.password, Some(Take(sh.home.value + "/.reop", PathBuffer - 1))))
    case Sign =>
      if o.msgfile.None? then Err(Usage)
      else Ok(SignFile(o.seckeyfile, o.msgfile.value, o.xfile.value, o.embedded))
    case Verify =>
      if o.msgfile.None? && o.xfile.None? then Err(Usage)
      else if o.msgfile.Some? then Ok(VerifySimple(o.pubkeyfile, o.msgfile.value, o.xfile.value, o.quiet))
      else Ok(VerifyEmbedded(o.pubkeyfile, o.xfile.value, o.quiet))
    case _ => Err(Usage)
  }

  /** main after the options loop: no operands, then the two switches. */
  function Decide(o: Options, operands: nat, sh: Shell): Result<Action>
  {
    if operands != 0 then Err(Usage)
    else
      match Names(o)
      case Err(e) => Err(e)
      case Ok(o2) => Run(o2, sh)
  }

  /** main: the options loop, then the decision. */
  function Main(opts: seq<Opt>, operands: nat, sh: Shell): (r: Result<Action>)
    ensures Parsed(opts).Err? ==> r == Err(Usage)
  {
    match Parsed(opts)
    case Err(e) => Err(e)
    case Ok(o) => Decide(o, operands, sh)
  }

  /** Operands, no verb, a second verb and the agent verb are all usage errors. */
  lemma MainRejects(opts: seq<Opt>, operands: nat, sh: Shell)
    ensures operands != 0 ==> Main(opts, operands, sh) == Err(Usage)
    ensures VerbLetters(opts) != 1 ==> Main(opts, operands, sh) == Err(Usage)
    ensures Given(opts, 'Z') ==> Main(opts, operands, sh) == Err(Usage)
  {
    ParsedAccepts(opts);
    if Given(opts, 'Z') && Parsed(opts).Ok? {
      AgentVerb(opts);
    }
  }

  /** The agent letter, once accepted, is the verb. */
  lemma {:induction false} AgentVerb(opts: seq<Opt>)
    requires Given(opts, 'Z') && Parsed(opts).Ok?
    ensures Parsed(opts).value.verb == Agent
  {
    var init := opts[..|opts| - 1];
    assert forall i :: 0 <= i < |init| ==> init[i] == opts[i];
    if opts[|opts| - 1].ch != 'Z' {
      var i :| 0 <= i < |opts| && opts[i].ch == 'Z';
      assert init[i].ch == 'Z';
      AgentVerb(init);
    } else {
      ParsedAccepts(init);
    }
  }

  /**
   * -E and -D: without -m a usage error; without -x the ciphertext file is
   * the message file plus ".enc", "-" is refused and a name of 1024 bytes or
   * more is "path too long".
   */
  lemma EncryptDecryptNames(o: Options, sh: Shell)
    requires o.verb == Encrypt || o.verb == Decrypt
    ensures o.msgfile.None? ==> Decide(o, 0, sh) == Err(Usage)
    ensures o.msgfile == Some(Dash) && o.xfile.None? ==> Decide(o, 0, sh) == Err(Usage)
    ensures (o.msgfile.Some? && o.msgfile.value != Dash && o.xfile.None?
             && |o.msgfile.value| + |EncSuffix| >= PathBuffer) ==> Decide(o, 0, sh) == Err(PathTooLong)
    ensures var r := Decide(o, 0, sh);
      r.Ok? ==> (r.value.DecryptFile? || r.value.PubEncrypt? || r.value.SymEncrypt?)
                && o.msgfile == Some(r.value.msgfile)
                && r.value.xfile.Some?
                && r.value.xfile.value == if o.xfile.Some? then o.xfile.value else o.msgfile.value + EncSuffix
  {
  }

  /**
   * -E: a secret key without a public key or ident is a usage error; with a
   * public key or ident it is a public-key encryption, v1 exactly with -1;
   * with neither it is a symmetric one.
   */
  lemma EncryptDispatch(o: Options, sh: Shell)
    requires o.verb == Encrypt && o.msgfile.Some?
    ensures o.seckeyfile.Some? && o.pubkeyfile.None? && o.ident.None? ==> Decide(o, 0, sh).Err?
    ensures var r := Decide(o, 0, sh);
      r.Ok? ==> (r.value.PubEncrypt? <==> o.pubkeyfile.Some? || o.ident.Some?)
                && (r.value.SymEncrypt? <==> o.pubkeyfile.None? && o.ident.None? && o.seckeyfile.None?)
                && (r.value.PubEncrypt? ==> r.value.v1 == o.v1compat && r.value.pubkeyfile == o.pubkeyfile
                                            && r.value.ident == o.ident && r.value.seckeyfile == o.seckeyfile)
                && r.value.binary == o.binary
  {
  }

  /**
   * -S and -V: without -x the signature file is the message file plus ".sig"
   * ("-" refused, "path too long" past the buffer); -S needs -m; -V with -m
   * checks a detached signature, without it an embedded one, and with
   * neither -m nor -x it is a usage error.
   */
  lemma SignVerifyNames(o: Options, sh: Shell)
    requires o.verb == Sign || o.verb == Verify
    ensures o.msgfile.None? && (o.verb == Sign || o.xfile.None?) ==> Decide(o, 0, sh) == Err(Usage)
    ensures o.msgfile == Some(Dash) && o.xfile.None? ==> Decide(o, 0, sh) == Err(Usage)
    ensures (o.msgfile.Some? && o.msgfile.value != Dash && o.xfile.None?
             && |o.msgfile.value| + |SigSuffix| >= PathBuffer) ==> Decide(o, 0, sh) == Err(PathTooLong)
    ensures var r := Decide(o, 0, sh);
      r.Ok? ==> (r.value.SignFile? <==> o.verb == Sign) && (r.value.VerifySimple? <==> o.verb == Verify && o.msgfile.Some?)
                && (r.value.VerifyEmbedded? <==> o.verb == Verify && o.msgfile.None?)
                && (!r.value.VerifyEmbedded? ==> o.msgfile == Some(r.value.msgfile))
                && r.value.sigfile == if o.xfile.Some? then o.xfile.value else o.msgfile.value + SigSuffix
  {
  }

  /**
   * -G: giving only one of -p/-s is a usage error; with neither, $HOME must
   * be set and ~/.reop is created; the identity is -i, else $USER, else
   * "unknown"; -n gives the empty passphrase.
   */
  lemma GenerateRules(o: Options, sh: Shell)
    requires o.verb == Generate
    ensures o.pubkeyfile.Some? != o.seckeyfile.Some? ==> Decide(o, 0, sh) == Err(Usage)
    ensures o.pubkeyfile.None? && o.seckeyfile.None? && sh.home.None? ==> Decide(o, 0, sh) == Err(CantFindHome)
    ensures var r := Decide(o, 0, sh);
      r.Ok? ==> r.value.GenerateKeys? && r.value.pubkeyfile == o.pubkeyfile && r.value.seckeyfile == o.seckeyfile
                && r.value.identity == DefaultIdent(o.ident, sh.user) && r.value.password == o.password
                && (r.value.mkdir.Some? <==> o.pubkeyfile.None?)
  {
  }

  // ---------------------------------------------------------------- python/main.py

  /** The verbs of the Python front end's argument group. */
  type PyVerb = v: Verb | v != NoVerb && v != Agent witness Decrypt

  /** The parsed arguments: the verb options given, in order, and the other values. */
  datatype PyArgs = PyArgs(verbs: seq<PyVerb>, v1compat: bool, binary: bool, embedded: bool,
                           quiet: bool, nopasswd: bool, ident: Option<CString>, msgfile: Option<CString>,
                           pubkeyfile: Option<CString>, seckeyfile: Option<CString>, xfile: Option<CString>)

  /** How the script ends: an exit with a message, one call into reop, or the end of the script. */
  datatype PyOutcome = PyExit(error: Error) | PyCall(action: Action) | PyEnd(ident: Option<CString>)

  /**
   * The required, mutually exclusive verb group (python/main.py:8-20): none,
   * or two different verbs, is an argument error; the same one repeated is
   * accepted.
   */
  function PyVerbOf(verbs: seq<PyVerb>): (r: Result<PyVerb>)
    ensures r.Ok? <==> |verbs| > 0 && forall i :: 0 <= i < |verbs| ==> verbs[i] == verbs[0]
    ensures r.Ok? ==> r.value == verbs[0]
    ensures r.Err? ==> r.error == ArgumentError
  {
    if |verbs| == 0 || exists i :: 0 <= i < |verbs| && verbs[i] != verbs[0] then Err(ArgumentError)
    else Ok(verbs[0])
  }

  /** python/main.py:49-122. */
  function PyMain(a: PyArgs, sh: Shell): (r: PyOutcome)
    ensures PyVerbOf(a.verbs).Err? ==> r == PyExit(ArgumentError)
  {
    match PyVerbOf(a.verbs)
    case Err(e) => PyExit(e)
    case Ok(verb) =>
      if (verb == Encrypt || verb == Decrypt) && a.msgfile.None? then PyExit(Usage)
      else if (verb == Encrypt || verb == Decrypt) && a.xfile.None? && a.msgfile.value == Dash then PyExit(Usage)
      else if (verb == Sign || verb == Verify) && a.xfile.None? && a.msgfile == Some(Dash) then PyExit(Usage)
      else if verb == Decrypt then PyCall(DecryptFile(a.pubkeyfile, a.seckeyfile, a.msgfile.value, a.xfile))
      else if verb == Encrypt then
        if a.seckeyfile.Some? && a.pubkeyfile.None? && a.ident.None? then PyExit(Usage)
        else if a.pubkeyfile.Some? || a.ident.Some? then
          PyCall(PubEncrypt(a.v1compat, a.pubkeyfile, a.ident, a.seckeyfile, a.msgfile.value, a.xfile, a.binary))
        else PyCall(SymEncrypt(a.msgfile.value, a.xfile, a.binary))
      else if verb == Generate then
        var ident := DefaultIdent(a.ident, sh.user);
        if a.pubkeyfile.Some? != a.seckeyfile.Some? then PyExit(Usage)
        else if a.pubkeyfile.None? && sh.home.None? then PyExit(CantFindHome)
        else PyEnd(Some(ident))
      else PyEnd(None)
  }

  /** The C options the same command line gives, with the verb the Python group chose. */
  function AsOptions(a: PyArgs, verb: PyVerb): Options {
    Options(verb, a.v1compat, a.binary, a.embedded, a.quiet, if a.nopasswd then Some(NoPassword) else None,
            a.ident, a.msgfile, a.pubkeyfile, a.seckeyfile, a.xfile, None)
  }

  /**
   * -E and -D with -x: the Python front end makes the same call as main, and
   * exits where main prints the usage.
   */
  lemma PyMatchesC(a: PyArgs, sh: Shell)
    requires PyVerbOf(a.verbs).Ok? && a.xfile.Some?
    requires a.verbs[0] == Encrypt || a.verbs[0] == Decrypt
    ensures var c := Decide(AsOptions(a, a.verbs[0]), 0, sh);
      PyMain(a, sh) == if c.Ok? then PyCall(c.value) else PyExit(c.error)
  {
  }

  /**
   * Where the Python front end parts from main: it derives no ".enc" name
   * (the call gets no ciphertext file), and -S without -m is not refused.
   */
  lemma PyDiffersFromC(a: PyArgs, sh: Shell)
    requires PyVerbOf(a.verbs).Ok?
    ensures a.verbs[0] == Decrypt && a.msgfile.Some? && a.msgfile.value != Dash && a.xfile.None? ==>
      PyMain(a, sh) == PyCall(DecryptFile(a.pubkeyfile, a.seckeyfile, a.msgfile.value, None))
      && Decide(AsOptions(a, Decrypt), 0, sh) != Ok(DecryptFile(a.pubkeyfile, a.seckeyfile, a.msgfile.value, None))
    ensures a.verbs[0] == Sign && a.msgfile.None? ==>
      PyMain(a, sh) == PyEnd(None) && Decide(AsOptions(a, Sign), 0, sh) == Err(Usage)
  {
  }

  /** A repeated verb: the Python group accepts it, main's options loop does not. */
  lemma RepeatedVerb()
    ensures var twice: seq<PyVerb> := [Decrypt, Decrypt];
      PyVerbOf(twice).Ok? && PyVerbOf(twice).value == Decrypt
    ensures Parsed([Opt('D', []), Opt('D', [])]) == Err(Usage)
  {
    var opts := [Opt('D', []), Opt('D', [])];
    assert opts[..1] == [Opt('D', [])];
    assert opts[..1][..0] == [];
  }
}
