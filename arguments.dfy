/** Command-line configuration: the document root, the listen address and the listen
    port, each read from a `-name=value` argument or set to its default. */
module ServerArguments {
  import opened Text

  const DefaultWebRoot: string := "../../../DefaultServerFiles"
  const DefaultWebIP: string := "127.0.0.1"
  const DefaultWebPort: int := 8080

  datatype Config = Config(webRoot: string, webIP: string, webPort: int)

  const Defaults: Config := Config(DefaultWebRoot, DefaultWebIP, DefaultWebPort)

  /** The text before the first `=`, or all of `arg`: the option name as it is checked. */
  function OptionName(arg: string): string
  {
    FirstPiece(arg, '=')
  }

  /** The text between the first `=` and the next one (or the end), or `None` where
      indexing the second piece fails because there is no `=`. */
  function OptionValue(arg: string): (r: Option<string>)
    ensures r.None? <==> '=' !in arg
    ensures r.Some? ==> '=' !in r.value
  {
    var parts := Split(arg, '=');
    if |parts| >= 2 then Some(parts[1]) else None
  }

  /** Exactly three arguments named `-webRoot`, `-webIP`, `-webPort`, in this order,
      compared case-sensitively. */
  predicate WellNamed(args: seq<string>)
  {
    && |args| == 3
    && OptionName(args[0]) == "-webRoot"
    && OptionName(args[1]) == "-webIP"
    && OptionName(args[2]) == "-webPort"
  }

  /** The port `int.TryParse` leaves in its out variable: the number, or 0. */
  function PortValue(text: string): (port: int)
    ensures Int32Min <= port <= Int32Max
    ensures TryParseInt32(text).None? ==> port == 0
  {
    match TryParseInt32(text)
    case Some(v) => v
    case None => 0
  }

  /** The configuration parseArguments leaves behind: the defaults, or values taken
      from well-named arguments, none of which holds an `=`, with a 32-bit port. */
  function Configure(args: seq<string>): (r: Config)
    ensures r == Defaults || (WellNamed(args) && '=' !in r.webRoot && '=' !in r.webIP)
    ensures Int32Min <= r.webPort <= Int32Max
  {
    if !WellNamed(args) then Defaults
    else
      match (OptionValue(args[0]), OptionValue(args[1]), OptionValue(args[2]))
      case (Some(root), Some(ip), Some(port)) => Config(root, ip, PortValue(port))
      case _ => Defaults
  }

  /** The three configuration properties, which parseArguments assigns in place. */
  class Arguments {
    var webRoot: string
    var webIP: string
    var webPort: int

    function Current(): Config
      reads this
    {
      Config(webRoot, webIP, webPort)
    }

    /** Before parsing, the strings are unset (modelled as empty) and the port is 0. */
    constructor ()
      ensures Current() == Config("", "", 0)
    {
      webRoot, webIP, webPort := "", "", 0;
    }

    method SetDefaultValues()
      modifies this
      ensures Current() == Defaults
    {
      webRoot := DefaultWebRoot;
      webIP := DefaultWebIP;
      webPort := DefaultWebPort;
    }

    /** Checks the three option names, then assigns root, address and port in turn;
        an argument without `=` stops the assignments (the index error the handler
        catches) and restores all defaults. Every path reports success. */
    method ParseArguments(args: seq<string>) returns (ok: bool)
      modifies this
      ensures ok
      ensures Current() == Configure(args)
    {
      if |args| != 3 || OptionName(args[0]) != "-webRoot" || OptionName(args[1]) != "-webIP"
         || OptionName(args[2]) != "-webPort" {
        SetDefaultValues();
        return true;
      }

      var rootParts := Split(args[0], '=');
      if |rootParts| < 2 {
        SetDefaultValues();
        return true;
      }
      webRoot := rootParts[1];

      var ipParts := Split(args[1], '=');
      if |ipParts| < 2 {
        SetDefaultValues();
        return true;
      }
      webIP := ipParts[1];

      var portParts := Split(args[2], '=');
      if |portParts| < 2 {
        SetDefaultValues();
        return true;
      }
      webPort := PortValue(portParts[1]);
      assert WellNamed(args);
      assert (OptionValue(args[0]), OptionValue(args[1]), OptionValue(args[2]))
        == (Some(webRoot), Some(webIP), Some(portParts[1]));

      return true;
    }
  }

  // ---------------------------------------------------------------------------
  // Properties of the configuration

  /** The wrong number of arguments, or a wrong name before the first `=`, gives the
      defaults. */
  lemma DefaultsUnlessWellNamed(args: seq<string>)
    requires !WellNamed(args)
    ensures Configure(args) == Defaults
  {
  }

  /** The value of `name=value` or `name=value=more` is the text between the first
      `=` and the next one. */
  lemma {:induction false} ValueBetweenEquals(name: string, value: string, rest: string)
    requires '=' !in name && '=' !in value
    requires rest == [] || rest[0] == '='
    ensures OptionName(name + "=" + value + rest) == name
    ensures OptionValue(name + "=" + value + rest) == Some(value)
  {
    var arg := name + "=" + value + rest;
    assert arg == name + ['='] + (value + rest);
    SplitAfterPiece(name, '=', value + rest);
    SplitFirstPiece(value, '=', rest);
  }

  /** Three well-named options with values: the root and address are stored as given
      (the address is not validated) and the port is its parsed value. */
  lemma {:induction false} WellFormedArguments(args: seq<string>, root: string, ip: string, port: string)
    requires '=' !in root && '=' !in ip && '=' !in port
    requires args == ["-webRoot=" + root, "-webIP=" + ip, "-webPort=" + port]
    ensures Configure(args) == Config(root, ip, PortValue(port))
  {
    NamedOption(args[0], "-webRoot", root);
    NamedOption(args[1], "-webIP", ip);
    NamedOption(args[2], "-webPort", port);
    ConfigureOfValues(args, root, ip, port);
  }

  /** One `name=value` argument, read as its name and value. */
  lemma NamedOption(arg: string, name: string, value: string)
    requires '=' !in name && '=' !in value
    requires arg == name + "=" + value
    ensures OptionName(arg) == name && OptionValue(arg) == Some(value)
  {
    ValueBetweenEquals(name, value, "");
    assert name + "=" + value + "" == arg;
  }

  /** Well-named arguments that all hold a value configure exactly those values. */
  lemma ConfigureOfValues(args: seq<string>, root: string, ip: string, port: string)
    requires WellNamed(args)
    requires OptionValue(args[0]) == Some(root)
    requires OptionValue(args[1]) == Some(ip)
    requires OptionValue(args[2]) == Some(port)
    ensures Configure(args) == Config(root, ip, PortValue(port))
  {
  }

  /** A port that is not a 32-bit number gives port 0, not the default 8080. */
  lemma NonNumericPortIsZero(args: seq<string>, root: string, ip: string, port: string)
    requires '=' !in root && '=' !in ip && '=' !in port
    requires args == ["-webRoot=" + root, "-webIP=" + ip, "-webPort=" + port]
    requires TryParseInt32(port).None?
    ensures Configure(args).webPort == 0
  {
    WellFormedArguments(args, root, ip, port);
  }

  /** A port written in decimal is read back. */
  lemma DecimalPortReadsBack(args: seq<string>, root: string, ip: string, port: nat)
    requires '=' !in root && '=' !in ip && port <= Int32Max
    requires args == ["-webRoot=" + root, "-webIP=" + ip, "-webPort=" + NatToString(port)]
    ensures Configure(args) == Config(root, ip, port)
  {
    var digits := NatToString(port);
    assert '=' !in digits by {
      assert forall i :: 0 <= i < |digits| ==> IsDigit(digits[i]);
    }
    WellFormedArguments(args, root, ip, digits);
    TryParseInt32OfNatToString(port);
  }

  /** A correctly named option without `=` restores every default, whatever the
      other arguments held. */
  lemma MissingEqualsRestoresDefaults(args: seq<string>, k: nat)
    requires WellNamed(args)
    requires k < 3 && '=' !in args[k]
    ensures Configure(args) == Defaults
  {
    assert OptionValue(args[k]).None?;
    if k == 0 {
      assert OptionValue(args[0]).None?;
    } else if k == 1 {
      assert OptionValue(args[1]).None?;
    } else {
      assert OptionValue(args[2]).None?;
    }
  }
}
