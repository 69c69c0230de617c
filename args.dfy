/** `argsToProps`: command-line arguments of the form key=value into a
    property table. Util.java and FrameworkUtil.java carry the same method
    word for word; this module models both. */
module Args {
  import opened Wrappers
  import opened JavaLang

  type Properties = map<string, string>

  /** "failed parsing arg for key value pair: <arg>" */
  datatype ArgError = MalformedArg(arg: string)

  /** An arg split at its first '=': the key before it (never empty) and
      everything after it as the value; none when there is no '=' or it
      comes first. */
  function SplitArg(arg: string): (kv: Option<(string, string)>)
    ensures kv.None? <==> IndexOf(arg, '=') < 1
    ensures kv.Some? ==> kv.value.0 + ['='] + kv.value.1 == arg
    ensures kv.Some? ==> |kv.value.0| > 0 && forall i | 0 <= i < |kv.value.0| :: kv.value.0[i] != '='
  {
    var equalsPos := IndexOf(arg, '=');
    if equalsPos < 1 then None
    else
      assert arg[..equalsPos] + ['='] + arg[equalsPos + 1..] == arg;
      Some((arg[..equalsPos], arg[equalsPos + 1..]))
  }

  /** The value may be empty and may itself contain '='. */
  lemma SplitArgExamples()
    ensures SplitArg("a=") == Some(("a", ""))
    ensures SplitArg("a==b") == Some(("a", "=b"))
    ensures SplitArg("=b") == None
    ensures SplitArg("ab") == None
  {
    assert IndexOf("a=", '=') == 1;
    assert "a="[..1] == "a" && "a="[2..] == "";
    assert IndexOf("a==b", '=') == 1;
    assert "a==b"[..1] == "a" && "a==b"[2..] == "=b";
    assert IndexOf("ab", '=') == -1 by {
      assert "ab"[1..] == "b" && "b"[1..] == "";
    }
  }

  /** The table the args describe, put in order, or the first malformed arg. */
  function Props(args: seq<string>): (r: Result<Properties, ArgError>)
  {
    if args == [] then Success(map[])
    else
      var props :- Props(args[..|args| - 1]);
      var arg := args[|args| - 1];
      match SplitArg(arg)
      case None => Failure(MalformedArg(arg))
      case Some((key, value)) => Success(props[key := value])
  }

  function KeyOf(arg: string): string
    requires SplitArg(arg).Some?
  {
    SplitArg(arg).value.0
  }

  function ValueOf(arg: string): string
    requires SplitArg(arg).Some?
  {
    SplitArg(arg).value.1
  }

  /** Every arg has a key before an '='. */
  predicate AllKeyValue(args: seq<string>) {
    forall i | 0 <= i < |args| :: SplitArg(args[i]).Some?
  }

  /** The parse succeeds exactly when no arg is malformed. */
  lemma {:induction false} PropsFailsIff(args: seq<string>)
    ensures Props(args).Success? <==> AllKeyValue(args)
  {
    if args != [] {
      var init := args[..|args| - 1];
      PropsFailsIff(init);
      assert AllKeyValue(args) <==> AllKeyValue(init) && SplitArg(args[|args| - 1]).Some? by {
        assert forall i | 0 <= i < |init| :: init[i] == args[i];
      }
    }
  }

  /** The error names the first malformed arg; nothing after it is looked at. */
  lemma FirstMalformedReported(args: seq<string>, i: nat)
    requires i < |args| && SplitArg(args[i]).None?
    requires forall j | 0 <= j < i :: SplitArg(args[j]).Some?
    ensures Props(args) == Failure(MalformedArg(args[i]))
  {
    PropsFailsIff(args[..i]);
    assert args[..i + 1][..i] == args[..i];
    PropsFailureExtends(args, i + 1);
  }

  /** One more well-formed arg puts its key and value. */
  lemma PropsSnoc(args: seq<string>)
    requires args != [] && Props(args).Success?
    ensures Props(args[..|args| - 1]).Success? && SplitArg(args[|args| - 1]).Some?
    ensures Props(args).value == Props(args[..|args| - 1]).value[KeyOf(args[|args| - 1]) := ValueOf(args[|args| - 1])]
  {
  }

  /** A successful parse has exactly the args' keys. */
  lemma {:induction false} PropsKeys(args: seq<string>)
    requires Props(args).Success?
    ensures AllKeyValue(args)
    ensures forall k :: k in Props(args).value <==> exists i | 0 <= i < |args| :: KeyOf(args[i]) == k
  {
    PropsFailsIff(args);
    if args != [] {
      var init := args[..|args| - 1];
      PropsSnoc(args);
      PropsKeys(init);
      assert forall i | 0 <= i < |init| :: init[i] == args[i];
      forall k | k in Props(args).value
        ensures exists i | 0 <= i < |args| :: KeyOf(args[i]) == k
      {
        if k != KeyOf(args[|args| - 1]) {
          var i :| 0 <= i < |init| && KeyOf(init[i]) == k;
          assert KeyOf(args[i]) == k;
        }
      }
    }
  }

  /** Each key holds the value of the last arg that names it. */
  lemma {:induction false} PropsLastWins(args: seq<string>)
    requires Props(args).Success?
    ensures AllKeyValue(args)
    ensures forall i | 0 <= i < |args| ::
      (forall j | i < j < |args| :: KeyOf(args[j]) != KeyOf(args[i])) ==>
        KeyOf(args[i]) in Props(args).value && Props(args).value[KeyOf(args[i])] == ValueOf(args[i])
    decreases |args|, 1
  {
    PropsFailsIff(args);
    forall i | 0 <= i < |args| && (forall j | i < j < |args| :: KeyOf(args[j]) != KeyOf(args[i]))
      ensures KeyOf(args[i]) in Props(args).value && Props(args).value[KeyOf(args[i])] == ValueOf(args[i])
    {
      LastWinsAt(args, i);
    }
  }

  /** The last-wins property at one index. */
  lemma {:induction false} LastWinsAt(args: seq<string>, i: nat)
    requires Props(args).Success? && AllKeyValue(args) && i < |args|
    requires forall j | i < j < |args| :: KeyOf(args[j]) != KeyOf(args[i])
    ensures KeyOf(args[i]) in Props(args).value && Props(args).value[KeyOf(args[i])] == ValueOf(args[i])
    decreases |args|, 0
  {
    var init := args[..|args| - 1];
    var last := |args| - 1;
    PropsSnoc(args);
    if i < last {
      PropsLastWins(init);
      assert init[i] == args[i];
      forall j | i < j < |init|
        ensures KeyOf(init[j]) != KeyOf(init[i])
      {
        assert init[j] == args[j];
      }
      assert KeyOf(args[last]) != KeyOf(args[i]);
    }
  }

  /** `argsToProps`. */
  method ArgsToProps(args: seq<string>) returns (r: Result<Properties, ArgError>)
    ensures r == Props(args)
  {
    var props: Properties := map[];
    var n := 0;
    while n < |args|
      invariant 0 <= n <= |args|
      invariant Props(args[..n]) == Success(props)
    {
      var arg := args[n];
      assert args[..n + 1][..n] == args[..n];
      var equalsPos := IndexOf(arg, '=');
      if equalsPos < 1 {
        PropsFailureExtends(args, n + 1);
        return Failure(MalformedArg(arg));
      }
      var key := arg[..equalsPos];
      var value := arg[equalsPos + 1..];
      props := props[key := value];
      n := n + 1;
    }
    assert args[..n] == args;
    r := Success(props);
  }

  /** Once a prefix of the args fails, the whole parse fails with the same error. */
  lemma {:induction false} PropsFailureExtends(args: seq<string>, n: nat)
    requires n <= |args| && Props(args[..n]).Failure?
    ensures Props(args) == Props(args[..n])
    decreases |args| - n
  {
    if n < |args| {
      assert args[..n + 1][..n] == args[..n];
      PropsFailureExtends(args, n + 1);
    } else {
      assert args[..n] == args;
    }
  }
}
