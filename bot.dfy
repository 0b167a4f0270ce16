/** The part of the bot object in src/Bot.php that keeps the bot's id and
    the `name=value` options given on the command line. */
module Bot {
  import opened Wrappers
  import opened Strings

  /** The option an argument sets: the text before the first `=`, and the
      text between the first and the second `=` (empty when there is no `=`). */
  function Entry(arg: string): (string, string) {
    var parts := Explode(arg, '=');
    (parts[0], if |parts| >= 2 then parts[1] else "")
  }

  /** The options after the arguments are read in order; a later argument
      overwrites an earlier one with the same name. */
  function AddOptions(m: map<string, string>, args: seq<string>): map<string, string>
    decreases |args|
  {
    if args == [] then m
    else
      var (name, value) := Entry(args[|args| - 1]);
      AddOptions(m, args[..|args| - 1])[name := value]
  }

  /** An argument without `=` sets its name to the empty string. */
  lemma EntryWithoutValue(name: string)
    requires '=' !in name
    ensures Entry(name) == (name, "")
  {
  }

  /** `name=value` sets the name to the value. */
  lemma EntryNameValue(name: string, value: string)
    requires '=' !in name && '=' !in value
    ensures Entry(name + "=" + value) == (name, value)
  {
    assert Explode(name + "=" + value, '=') == [name] + Explode(value, '=') by {
      ExplodeAfterDelimiter(name, '=', value);
      assert name + "=" + value == name + ['='] + value;
    }
  }

  /** Text after a second `=` is dropped. */
  lemma EntryExtraIgnored(name: string, value: string, rest: string)
    requires '=' !in name && '=' !in value
    ensures Entry(name + "=" + value + "=" + rest) == (name, value)
  {
    ExplodePair(name, value, rest, '=');
  }

  /** An option is set by the last argument that names it. */
  lemma {:induction false} LastArgumentWins(m: map<string, string>, args: seq<string>, i: int)
    requires 0 <= i < |args|
    requires forall j :: i < j < |args| ==> Entry(args[j]).0 != Entry(args[i]).0
    ensures Entry(args[i]).0 in AddOptions(m, args)
    ensures AddOptions(m, args)[Entry(args[i]).0] == Entry(args[i]).1
    decreases |args|
  {
    if i < |args| - 1 {
      var init := args[..|args| - 1];
      assert init[i] == args[i];
      forall j | i < j < |init| ensures Entry(init[j]).0 != Entry(init[i]).0 {
        assert init[j] == args[j];
      }
      LastArgumentWins(m, init, i);
    }
  }

  /** An option no argument names keeps its earlier value, or stays unset. */
  lemma {:induction false} UnnamedOptionKept(m: map<string, string>, args: seq<string>, name: string)
    requires forall j :: 0 <= j < |args| ==> Entry(args[j]).0 != name
    ensures name in AddOptions(m, args) <==> name in m
    ensures name in m ==> AddOptions(m, args)[name] == m[name]
    decreases |args|
  {
    if args != [] {
      var init := args[..|args| - 1];
      forall j | 0 <= j < |init| ensures Entry(init[j]).0 != name {
        assert init[j] == args[j];
      }
      UnnamedOptionKept(m, init, name);
    }
  }

  class Bot {
    var botId: int
    /** `$param`; `null` reads like the empty map. */
    var param: map<string, string>

    constructor ()
      ensures botId == 0 && param == map[]
    {
      botId := 0;
      param := map[];
    }

    /** `setBotId($id)`. */
    method SetBotId(id: int)
      modifies this
      ensures botId == id && param == old(param)
    {
      botId := id;
    }

    /** `getBotId()`. */
    method GetBotId() returns (id: int)
      ensures id == botId
    {
      id := botId;
    }

    /** `setParam($argv)`: the arguments after the script name are added to
        the options already set. */
    method SetParam(argv: seq<string>)
      modifies this
      ensures param == if |argv| <= 1 then old(param) else AddOptions(old(param), argv[1..])
      ensures botId == old(botId)
    {
      var i := 1;
      while i < |argv|
        invariant 1 <= i && (|argv| >= 1 ==> i <= |argv|) && botId == old(botId)
        invariant param == if |argv| <= 1 then old(param) else AddOptions(old(param), argv[1..i])
      {
        assert argv[1..i + 1][..i - 1] == argv[1..i];
        var parts := Explode(argv[i], '=');
        param := param[parts[0] := if |parts| >= 2 then parts[1] else ""];
        i := i + 1;
      }
      if |argv| > 1 {
        assert argv[1..i] == argv[1..];
      }
    }

    /** `getParam($name)`: the value of the option, or `null` when unset. */
    method GetParam(name: string) returns (value: Option<string>)
      ensures value.Some? <==> name in param
      ensures value.Some? ==> value.value == param[name]
    {
      value := None;
      if name in param {
        value := Some(param[name]);
      }
    }
  }
}
