/** The stored description of a user over INF messages: the rules of `src/core/inf.c` and `user_update_info` of `src/core/user.c`. */
module InfoRules {
  import opened Options
  import opened AdcArgs
  import opened AdcMessage

  // ----- Last writer wins

  /** One argument written over a stored list; one without a name is ignored. */
  function Write(stored: seq<string>, arg: string): seq<string>
    requires Clean(arg)
  {
    if |arg| >= 2 then Without(stored, NameOf(arg)) + [arg] else stored
  }

  function NameOf(arg: string): Name
    requires Clean(arg) && |arg| >= 2
  {
    arg[..2]
  }

  /** The arguments of an update written in turn; reading stops at an empty one. */
  function Override(stored: seq<string>, update: seq<string>): seq<string>
    requires AllClean(update)
    decreases |update|
  {
    if update == [] || update[0] == [] then stored else Override(Write(stored, update[0]), update[1..])
  }

  /** The arguments of an update that are read. */
  function Read(update: seq<string>): seq<string> {
    if update == [] || update[0] == [] then [] else [update[0]] + Read(update[1..])
  }

  lemma WritePick(stored: seq<string>, arg: string, p: Name)
    requires Clean(arg)
    ensures Pick(Write(stored, arg), p) == if Named(arg, p) then [arg] else Pick(stored, p)
  {
    if |arg| >= 2 {
      var q := NameOf(arg);
      WithoutIsFilter(stored, q, p);
      PickAppend(Without(stored, q), [arg], p);
      assert Pick([arg], p) == if Named(arg, p) then [arg] else [];
    }
  }

  lemma ReadPick(update: seq<string>, p: Name)
    requires update != [] && update[0] != []
    ensures Pick(Read(update), p) == (if Named(update[0], p) then [update[0]] else []) + Pick(Read(update[1..]), p)
  {
    var r := [update[0]] + Read(update[1..]);
    assert r[0] == update[0] && r[1..] == Read(update[1..]);
  }

  /** After an update every name it mentions has exactly its last argument, and every other name has what it had. */
  lemma {:induction false} LastWriterWins(stored: seq<string>, update: seq<string>, p: Name)
    requires AllClean(update)
    ensures var written := Pick(Read(update), p);
            Pick(Override(stored, update), p) == if written == [] then Pick(stored, p) else [written[|written| - 1]]
    decreases |update|
  {
    if update != [] && update[0] != [] {
      LastWriterWins(Write(stored, update[0]), update[1..], p);
      WritePick(stored, update[0], p);
      ReadPick(update, p);
    }
  }

  /** In terms of values: a name reads as the last value written, or as before. */
  lemma OverrideLookup(stored: seq<string>, update: seq<string>, p: Name)
    requires AllClean(update)
    ensures var written := Pick(Read(update), p);
            Lookup(Override(stored, update), p) == if written == [] then Lookup(stored, p) else Some(written[|written| - 1][2..])
  {
    LastWriterWins(stored, update, p);
    LookupIsPick(Override(stored, update), p);
    LookupIsPick(stored, p);
  }

  /** One argument of an update. */
  method WriteArgument(info: Message, arg: string)
    requires info.Ready() && Clean(arg)
    modifies info`cache, info`length, info`args, info.cache
    ensures info.cache == old(info.cache) || fresh(info.cache)
    ensures info.Ready() && info.args == Write(old(info.args), arg)
  {
    if |arg| >= 2 {
      assert arg[..2] + arg[2..] == arg;
      OneArgument(arg);
      info.ReplaceNamed(NameOf(arg), arg[2..]);
    }
  }

  /** The loop over the arguments of an update. */
  method WriteAll(info: Message, cmd: Message)
    requires info.Ready() && cmd.Ready() && info != cmd && info.cache != cmd.cache
    modifies info`cache, info`length, info`args, info.cache, cmd`cache, cmd`length, cmd.cache
    ensures info.cache == old(info.cache) || fresh(info.cache)
    ensures cmd.cache == old(cmd.cache) || fresh(cmd.cache)
    ensures info.Ready() && info.args == Override(old(info.args), cmd.args)
    ensures cmd.Ready() && info.cache != cmd.cache
  {
    hide Message.Valid;
    cmd.ArgsAreClean();
    var n := 0;
    var argument := cmd.GetArgument(n);
    assert cmd.args[0..] == cmd.args;
    while argument.Some?
      invariant 0 <= n <= |cmd.args| && argument == ArgumentAt(cmd.args, n)
      invariant cmd.cache == old(cmd.cache) || fresh(cmd.cache)
      invariant info.cache == old(info.cache) || fresh(info.cache)
      invariant cmd.Ready() && info.Ready() && info.cache != cmd.cache
      invariant Override(info.args, cmd.args[n..]) == Override(old(info.args), cmd.args)
      decreases |cmd.args| - n
    {
      assert cmd.args[n..][1..] == cmd.args[n + 1..];
      WriteArgument(info, argument.value);
      n := n + 1;
      argument := cmd.GetArgument(n);
    }
  }

  /** The update of the stored message: a new message; the old one stays and the update keeps what it says. */
  method UpdateInfo(info: Message, cmd: Message) returns (updated: Message)
    requires info.Ready() && cmd.Ready()
    modifies cmd`cache, cmd`length, cmd.cache
    ensures fresh(updated) && fresh(updated.cache) && updated.Ready()
    ensures updated.head == info.head && updated.args == Override(info.args, cmd.args)
    ensures cmd.Ready() && (cmd.cache == old(cmd.cache) || fresh(cmd.cache)) && updated.cache != cmd.cache
  {
    hide Override;
    info.StartsText();
    updated := new Message.Copy(info);
    assert updated.Valid();
    updated.StartsText();
    WriteAll(updated, cmd);
  }

  // ----- What the hub takes out and puts in

  const NICK: Name := "NI"
  const CLIENT_ID: Name := "ID"
  const PRIVATE_ID: Name := "PD"
  const CLIENT_TYPE: Name := "CT"
  const IPV4_ADDR: Name := "I4"
  const IPV6_ADDR: Name := "I6"
  const IPV4_UDP_PORT: Name := "U4"
  const IPV6_UDP_PORT: Name := "U6"

  /** What only the hub may say, with the older forms of it. */
  const RESTRICTED: seq<Name> := ["CT", "BO", "RG", "OP", "HU", "HI", "TO", "RF"]

  /** What goes in low bandwidth mode. */
  const HEAVY: seq<Name> := ["VE", "AP", "SF", "HN", "HR", "HO", "US", "DS", "AS", "AM", "AW", "DE", "EM"]

  /** Who a user is: the arguments that no update may touch, and the one nobody may see. */
  const IDENTITY: seq<Name> := ["NI", "ID", "CT", "I4", "I6", "PD"]

  function WithoutAll(args: seq<string>, names: seq<Name>): seq<string>
    decreases |names|
  {
    if names == [] then args else WithoutAll(Without(args, names[0]), names[1..])
  }

  lemma {:induction false} WithoutAllIsFilter(args: seq<string>, names: seq<Name>, p: Name)
    ensures AllClean(args) ==> AllClean(WithoutAll(args, names))
    ensures Pick(WithoutAll(args, names), p) == if p in names then [] else Pick(args, p)
    decreases |names|
  {
    if names != [] {
      WithoutIsFilter(args, names[0], p);
      WithoutAllIsFilter(Without(args, names[0]), names[1..], p);
    }
  }

  /** The arguments, in order, whose name is not among `names`. */
  function Unnamed(args: seq<string>, names: seq<Name>): seq<string> {
    if args == [] then []
    else (if |args[0]| >= 2 && args[0][..2] in names then [] else [args[0]]) + Unnamed(args[1..], names)
  }

  lemma {:induction false} UnnamedIsWithout(args: seq<string>, names: seq<Name>)
    requires names != []
    ensures Unnamed(Without(args, names[0]), names[1..]) == Unnamed(args, names)
  {
    if args != [] {
      UnnamedIsWithout(args[1..], names);
      var w := Without(args, names[0]);
      assert Named(args[0], names[0]) || (w[0] == args[0] && w[1..] == Without(args[1..], names[0]));
    }
  }

  lemma {:induction false} AllUnnamed(args: seq<string>)
    ensures Unnamed(args, []) == args
  {
    if args != [] { AllUnnamed(args[1..]); }
  }

  /** Taking one name out after the other is taking all of them out. */
  lemma {:induction false} WithoutAllIsUnnamed(args: seq<string>, names: seq<Name>)
    ensures WithoutAll(args, names) == Unnamed(args, names)
    decreases |names|
  {
    if names == [] {
      AllUnnamed(args);
    } else {
      WithoutAllIsUnnamed(Without(args, names[0]), names[1..]);
      UnnamedIsWithout(args, names);
    }
  }

  lemma {:induction false} WithoutAllTwice(args: seq<string>, a: seq<Name>, b: seq<Name>)
    ensures WithoutAll(WithoutAll(args, a), b) == WithoutAll(args, a + b)
    decreases |a|
  {
    if a == [] {
      assert a + b == b;
    } else {
      assert (a + b)[1..] == a[1..] + b;
      WithoutAllTwice(Without(args, a[0]), a[1..], b);
    }
  }

  lemma {:induction false} SameNamesTakenOut(args: seq<string>, a: seq<Name>, b: seq<Name>)
    requires forall n :: n in a <==> n in b
    ensures Unnamed(args, a) == Unnamed(args, b)
  {
    if args != [] { SameNamesTakenOut(args[1..], a, b); }
  }

  method RemoveEach(cmd: Message, names: seq<Name>)
    requires cmd.Ready()
    modifies cmd`cache, cmd`length, cmd`args, cmd.cache
    ensures cmd.cache == old(cmd.cache) || fresh(cmd.cache)
    ensures cmd.Ready() && cmd.args == WithoutAll(old(cmd.args), names)
  {
    hide Message.Valid;
    var i := 0;
    while i < |names|
      invariant 0 <= i <= |names| && cmd.Ready()
      invariant cmd.cache == old(cmd.cache) || fresh(cmd.cache)
      invariant WithoutAll(cmd.args, names[i..]) == WithoutAll(old(cmd.args), names)
    {
      assert names[i..][1..] == names[i + 1..];
      var _ := cmd.RemoveNamed(names[i]);
      i := i + 1;
    }
  }

  datatype Credentials = CredNone | Bot | Ubot | Guest | User | Operator | OpBot | OpUbot | Super | Admin | Link

  /** The client type the hub announces for a user. */
  function TypeOf(cred: Credentials): seq<string> {
    match cred
    case CredNone => []
    case Bot => [CLIENT_TYPE + "1"]
    case Ubot => [CLIENT_TYPE + "1"]
    case Guest => []
    case User => [CLIENT_TYPE + "2"]
    case Operator => [CLIENT_TYPE + "4"]
    case OpBot => [CLIENT_TYPE + "5"]
    case OpUbot => [CLIENT_TYPE + "5"]
    case Super => [CLIENT_TYPE + "12"]
    case Admin => [CLIENT_TYPE + "20"]
    case Link => []
  }

  /** The number that a string of digits stands for. */
  function Decimal(s: string): int {
    if s == [] then 0 else 10 * Decimal(s[..|s| - 1]) + (s[|s| - 1] as int - '0' as int)
  }

  /** The client type is the sum of 1 for a bot, 2 for a registered user, 4 for an operator, 8 for a super user and 16 for the owner. */
  lemma TypeIsBits(cred: Credentials)
    ensures var bits := (if cred in {Bot, Ubot, OpBot, OpUbot} then 1 else 0) + (if cred == User then 2 else 0)
                      + (if cred in {Operator, OpBot, OpUbot, Super, Admin} then 4 else 0)
                      + (if cred == Super then 8 else 0) + (if cred == Admin then 16 else 0);
            if bits == 0 then TypeOf(cred) == []
            else |TypeOf(cred)| == 1 && Named(TypeOf(cred)[0], CLIENT_TYPE) && Decimal(TypeOf(cred)[0][2..]) == bits
  {
    hide Named;
    if TypeOf(cred) != [] {
      var digits := if cred == Super then "12" else if cred == Admin then "20" else [TypeOf(cred)[0][2]];
      assert TypeOf(cred)[0] == CLIENT_TYPE + digits;
      NamedBy(CLIENT_TYPE, digits, CLIENT_TYPE);
      assert TypeOf(cred)[0][2..] == digits;
      DecimalOf(digits);
    }
  }

  lemma DecimalOf(s: string)
    requires 1 <= |s| <= 2
    ensures Decimal(s) == if |s| == 1 then s[0] as int - '0' as int else 10 * (s[0] as int - '0' as int) + (s[1] as int - '0' as int)
  {
    assert s[..|s| - 1] == if |s| == 1 then [] else [s[0]];
    assert Decimal([s[0]]) == 10 * Decimal([s[0]][..0]) + (s[0] as int - '0' as int);
  }

  /** The address the hub saw in place of whatever the client gave, unless the client is behind a translator and gives its own. */
  function WithNetwork(args: seq<string>, address: string, translated: bool): seq<string> {
    if GivesOwn(args, translated) then WithoutAll(args, [IPV6_ADDR, IPV6_UDP_PORT])
    else if '.' in address then WithoutAll(args, [IPV6_ADDR, IPV6_UDP_PORT, IPV4_ADDR]) + [IPV4_ADDR + address]
    else if ':' in address then WithoutAll(args, [IPV4_ADDR, IPV4_UDP_PORT, IPV6_ADDR]) + [IPV6_ADDR + address]
    else args
  }

  lemma NamedBy(q: Name, s: string, p: Name)
    ensures Named(q + s, p) <==> p == q
  {
    assert (q + s)[..2] == q;
  }

  /** A client behind a translator gives an address of its own. */
  predicate GivesOwn(args: seq<string>, translated: bool) {
    translated && Lookup(args, IPV4_ADDR) != None && Lookup(args, IPV4_ADDR) != Some("0.0.0.0")
  }

  /** Of the addresses in `args` exactly the one the hub saw is left in `info`, unless a translated client gives one of its own. */
  predicate Addressed(info: seq<string>, args: seq<string>, address: string, translated: bool) {
    var v4, v6, given := Pick(info, IPV4_ADDR), Pick(info, IPV6_ADDR), Pick(args, IPV4_ADDR);
    if translated && given != [] && given[0] != IPV4_ADDR + "0.0.0.0" then v4 == given && v6 == []
    else if '.' in address then v4 == [IPV4_ADDR + address] && v6 == []
    else if ':' in address then v4 == [] && v6 == [IPV6_ADDR + address]
    else v4 == given && v6 == Pick(args, IPV6_ADDR)
  }

  /** A port stays exactly when the addresses of its family are not dropped. */
  predicate Ported(info: seq<string>, args: seq<string>, address: string, translated: bool) {
    var given := Pick(args, IPV4_ADDR);
    var four := (translated && given != [] && given[0] != IPV4_ADDR + "0.0.0.0") || '.' in address;
    && Pick(info, IPV4_UDP_PORT) == (if !four && ':' in address then [] else Pick(args, IPV4_UDP_PORT))
    && Pick(info, IPV6_UDP_PORT) == if four then [] else Pick(args, IPV6_UDP_PORT)
  }

  lemma OwnByPick(args: seq<string>, translated: bool)
    ensures var given := Pick(args, IPV4_ADDR);
            GivesOwn(args, translated) <==> translated && given != [] && given[0] != IPV4_ADDR + "0.0.0.0"
  {
    LookupIsPick(args, IPV4_ADDR);
    var given := Pick(args, IPV4_ADDR);
    if given != [] {
      assert Named(given[0], IPV4_ADDR);
      assert given[0] == IPV4_ADDR + given[0][2..];
      assert (IPV4_ADDR + "0.0.0.0")[2..] == "0.0.0.0";
    }
  }

  lemma ReplacePick(args: seq<string>, names: seq<Name>, q: Name, s: string, p: Name)
    requires p in names && q in names
    ensures Pick(WithoutAll(args, names) + [q + s], p) == if p == q then [q + s] else []
  {
    WithoutAllIsFilter(args, names, p);
    PickAppend(WithoutAll(args, names), [q + s], p);
    NamedBy(q, s, p);
  }

  lemma NetworkAddresses(args: seq<string>, address: string, translated: bool)
    ensures Addressed(WithNetwork(args, address, translated), args, address, translated) && Ported(WithNetwork(args, address, translated), args, address, translated)
  {
    hide Pick, WithoutAll, Lookup, GivesOwn, Named;
    var own, v4, v6 := [IPV6_ADDR, IPV6_UDP_PORT], [IPV6_ADDR, IPV6_UDP_PORT, IPV4_ADDR], [IPV4_ADDR, IPV4_UDP_PORT, IPV6_ADDR];
    assert own[0] == v4[0] == v6[2] == IPV6_ADDR && v4[2] == v6[0] == IPV4_ADDR;
    assert own[1] == v4[1] == IPV6_UDP_PORT && v6[1] == IPV4_UDP_PORT;
    OwnByPick(args, translated);
    if GivesOwn(args, translated) {
      WithoutAllIsFilter(args, own, IPV4_ADDR);
      WithoutAllIsFilter(args, own, IPV6_ADDR);
      WithoutAllIsFilter(args, own, IPV4_UDP_PORT);
      WithoutAllIsFilter(args, own, IPV6_UDP_PORT);
    } else if '.' in address {
      ReplacePick(args, v4, IPV4_ADDR, address, IPV4_ADDR);
      ReplacePick(args, v4, IPV4_ADDR, address, IPV6_ADDR);
      ReplacePick(args, v4, IPV4_ADDR, address, IPV6_UDP_PORT);
      ReplaceKeeps(args, v4, IPV4_ADDR, address, IPV4_UDP_PORT);
    } else {
      ReplacePick(args, v6, IPV6_ADDR, address, IPV4_ADDR);
      ReplacePick(args, v6, IPV6_ADDR, address, IPV6_ADDR);
      ReplacePick(args, v6, IPV6_ADDR, address, IPV4_UDP_PORT);
      ReplaceKeeps(args, v6, IPV6_ADDR, address, IPV6_UDP_PORT);
    }
  }

  method CheckNetwork(cmd: Message, address: string, translated: bool)
    requires cmd.Ready() && Clean(address)
    modifies cmd`cache, cmd`length, cmd`args, cmd.cache
    ensures cmd.cache == old(cmd.cache) || fresh(cmd.cache)
    ensures cmd.Ready() && cmd.args == WithNetwork(old(cmd.args), address, translated)
    ensures Addressed(cmd.args, old(cmd.args), address, translated) && Ported(cmd.args, old(cmd.args), address, translated)
  {
    hide Addressed, Ported, Pick;
    NetworkAddresses(cmd.args, address, translated);
    if translated {
      var given := cmd.GetNamed(IPV4_ADDR);
      if given.Some? && given.value != "0.0.0.0" {
        RemoveEach(cmd, [IPV6_ADDR, IPV6_UDP_PORT]);
        return;
      }
    }
    if '.' in address {
      RemoveEach(cmd, [IPV6_ADDR, IPV6_UDP_PORT, IPV4_ADDR]);
      AddClean(cmd, IPV4_ADDR, address);
    } else if ':' in address {
      RemoveEach(cmd, [IPV4_ADDR, IPV4_UDP_PORT, IPV6_ADDR]);
      AddClean(cmd, IPV6_ADDR, address);
    }
  }

  method AddClean(cmd: Message, p: Name, s: string)
    requires cmd.Ready() && Clean(s)
    modifies cmd`cache, cmd`length, cmd`args, cmd.cache
    ensures cmd.cache == old(cmd.cache) || fresh(cmd.cache)
    ensures cmd.Ready() && cmd.args == old(cmd.args) + [p + s]
  {
    OneArgument(p + s);
    cmd.StartsText();
    cmd.AddNamed(p, s);
    cmd.StartsText();
  }

  // ----- Logging in

  datatype LoginFlags = Fine | CidMissing | CidInvalid | PidMissing | PidInvalid | NickMissing | NickMultiple

  /** Client identifier, private identifier and nick must each be given exactly once. */
  method CheckRequired(cmd: Message) returns (status: LoginFlags)
    requires cmd.Ready()
    ensures status == Fine <==> Required(cmd.args)
    ensures status == CidMissing <==> Count(cmd.args, CLIENT_ID) == 0
    ensures status == CidInvalid <==> Count(cmd.args, CLIENT_ID) > 1
    ensures status == PidMissing <==> Count(cmd.args, CLIENT_ID) == 1 && Count(cmd.args, PRIVATE_ID) == 0
    ensures status == PidInvalid <==> Count(cmd.args, CLIENT_ID) == 1 && Count(cmd.args, PRIVATE_ID) > 1
    ensures status == NickMissing <==> Count(cmd.args, CLIENT_ID) == Count(cmd.args, PRIVATE_ID) == 1 && Count(cmd.args, NICK) == 0
    ensures status == NickMultiple <==> Count(cmd.args, CLIENT_ID) == Count(cmd.args, PRIVATE_ID) == 1 && Count(cmd.args, NICK) > 1
  {
    var num := cmd.HasNamed(CLIENT_ID);
    if num != 1 {
      return if num == 0 then CidMissing else CidInvalid;
    }
    num := cmd.HasNamed(PRIVATE_ID);
    if num != 1 {
      return if num == 0 then PidMissing else PidInvalid;
    }
    num := cmd.HasNamed(NICK);
    if num != 1 {
      return if num == 0 then NickMissing else NickMultiple;
    }
    return Fine;
  }

  predicate Required(args: seq<string>) {
    Count(args, CLIENT_ID) == 1 && Count(args, PRIVATE_ID) == 1 && Count(args, NICK) == 1
  }

  /** What the hub knows and decides beside the message: address, credentials, mode, and the verdicts of the checks not modelled here. */
  datatype Context = Context(address: string, translated: bool, cred: Credentials, identityOk: bool, admitted: bool, limitsOk: bool, low: bool)

  /** The info of a new user, from the arguments of the INF message. */
  function LoginInfo(args: seq<string>, c: Context): seq<string> {
    AdmittedInfo(WithNetwork(args, c.address, c.translated), c)
  }

  function AdmittedInfo(args: seq<string>, c: Context): seq<string> {
    var named := WithoutAll(args, [PRIVATE_ID]) + TypeOf(c.cred);
    if c.low then WithoutAll(named, HEAVY) else named
  }

  method SetCredentials(cmd: Message, cred: Credentials)
    requires cmd.Ready()
    modifies cmd`cache, cmd`length, cmd`args, cmd.cache
    ensures cmd.cache == old(cmd.cache) || fresh(cmd.cache)
    ensures cmd.Ready() && cmd.args == old(cmd.args) + TypeOf(cred)
  {
    hide Message.Valid;
    match cred
    case CredNone =>
    case Bot => AddClean(cmd, CLIENT_TYPE, "1");
    case Ubot => AddClean(cmd, CLIENT_TYPE, "1");
    case Guest =>
    case User => AddClean(cmd, CLIENT_TYPE, "2");
    case Operator => AddClean(cmd, CLIENT_TYPE, "4");
    case OpBot => AddClean(cmd, CLIENT_TYPE, "5");
    case OpUbot => AddClean(cmd, CLIENT_TYPE, "5");
    case Super => AddClean(cmd, CLIENT_TYPE, "12");
    case Admin => AddClean(cmd, CLIENT_TYPE, "20");
    case Link =>
  }

  method HandleLogin(cmd: Message, c: Context) returns (ok: bool)
    requires cmd.Ready() && Clean(c.address)
    modifies cmd`cache, cmd`length, cmd`args, cmd.cache
    ensures cmd.cache == old(cmd.cache) || fresh(cmd.cache)
    ensures ok <==> Required(old(cmd.args)) && c.identityOk && c.admitted && c.limitsOk
    ensures cmd.Ready() && (ok ==> cmd.args == LoginInfo(old(cmd.args), c))
  {
    hide Message.Valid, WithNetwork, AdmittedInfo;
    var status := CheckRequired(cmd);
    if status != Fine || !c.identityOk {
      return false;
    }
    CheckNetwork(cmd, c.address, c.translated);
    ok := Admit(cmd, c);
  }

  method Admit(cmd: Message, c: Context) returns (ok: bool)
    requires cmd.Ready()
    modifies cmd`cache, cmd`length, cmd`args, cmd.cache
    ensures cmd.cache == old(cmd.cache) || fresh(cmd.cache)
    ensures ok <==> c.admitted && c.limitsOk
    ensures cmd.Ready() && (ok ==> cmd.args == AdmittedInfo(old(cmd.args), c))
  {
    hide Message.Valid, WithoutAll;
    RemoveEach(cmd, [PRIVATE_ID]);
    SetCredentials(cmd, c.cred);
    if !c.admitted || !c.limitsOk {
      return false;
    }
    if c.low {
      RemoveEach(cmd, HEAVY);
    }
    return true;
  }

  // ----- Updates

  /** What is left of an update from a user who is logged in. */
  function UpdateArgs(args: seq<string>, low: bool): seq<string> {
    var own := WithoutAll(WithoutAll(args, RESTRICTED), [PRIVATE_ID, CLIENT_ID]);
    var plain := WithoutAll(Without(own, NICK), [IPV6_ADDR, IPV4_ADDR]);
    if low then WithoutAll(plain, HEAVY) else plain
  }

  /** What is taken out of an update. */
  function Dropped(low: bool): seq<Name> {
    RESTRICTED + IDENTITY + if low then HEAVY else []
  }

  /** Of an update everything stays, in order, but what only the hub may say, what the user is, and in low bandwidth mode what is heavy. */
  lemma UpdateIsFilter(args: seq<string>, low: bool)
    ensures UpdateArgs(args, low) == Unnamed(args, Dropped(low))
  {
    hide Unnamed, WithoutAll, Without;
    var own := RESTRICTED + [PRIVATE_ID, CLIENT_ID];
    var names := own + [NICK] + [IPV6_ADDR, IPV4_ADDR];
    WithoutAllTwice(args, RESTRICTED, [PRIVATE_ID, CLIENT_ID]);
    WithoutOne(WithoutAll(args, own), NICK);
    WithoutAllTwice(args, own, [NICK]);
    WithoutAllTwice(args, own + [NICK], [IPV6_ADDR, IPV4_ADDR]);
    WithoutAllTwice(args, names, HEAVY);
    var all := names + if low then HEAVY else [];
    assert low || all == names;
    WithoutAllIsUnnamed(args, all);
    NamesOfUpdate(low);
    SameNamesTakenOut(args, all, Dropped(low));
  }

  lemma WithoutOne(args: seq<string>, p: Name)
    ensures Without(args, p) == WithoutAll(args, [p])
  {
    assert WithoutAll(Without(args, p), [p][1..]) == Without(args, p);
  }

  lemma NamesOfUpdate(low: bool)
    ensures var names := RESTRICTED + [PRIVATE_ID, CLIENT_ID] + [NICK] + [IPV6_ADDR, IPV4_ADDR] + if low then HEAVY else [];
            forall n :: n in names <==> n in Dropped(low)
  {
    var own := [PRIVATE_ID, CLIENT_ID] + [NICK] + [IPV6_ADDR, IPV4_ADDR];
    assert own == [PRIVATE_ID, CLIENT_ID, NICK, IPV6_ADDR, IPV4_ADDR];
    assert RESTRICTED[0] == IDENTITY[2];
    forall n ensures n in own || n in RESTRICTED <==> n in IDENTITY || n in RESTRICTED {
      assert n in IDENTITY ==> n == IDENTITY[0] || n == IDENTITY[1] || n == IDENTITY[2] || n == IDENTITY[3] || n == IDENTITY[4] || n == IDENTITY[5];
      assert own[0] == IDENTITY[5] && own[1] == IDENTITY[1] && own[2] == IDENTITY[0] && own[3] == IDENTITY[4] && own[4] == IDENTITY[3];
    }
  }

  /** An update carries nothing of who the user is. */
  lemma UpdateHasNoIdentity(args: seq<string>, low: bool, p: Name)
    requires p in IDENTITY
    ensures Pick(UpdateArgs(args, low), p) == []
  {
    var restricted := WithoutAll(args, RESTRICTED);
    var own := WithoutAll(restricted, [PRIVATE_ID, CLIENT_ID]);
    var plain := WithoutAll(Without(own, NICK), [IPV6_ADDR, IPV4_ADDR]);
    WithoutAllIsFilter(args, RESTRICTED, p);
    WithoutAllIsFilter(restricted, [PRIVATE_ID, CLIENT_ID], p);
    WithoutIsFilter(own, NICK, p);
    WithoutAllIsFilter(Without(own, NICK), [IPV6_ADDR, IPV4_ADDR], p);
    WithoutAllIsFilter(plain, HEAVY, p);
    assert RESTRICTED[0] == "CT";
  }

  lemma UpdateIsClean(args: seq<string>, low: bool)
    requires AllClean(args)
    ensures AllClean(UpdateArgs(args, low))
  {
    var restricted := WithoutAll(args, RESTRICTED);
    var own := WithoutAll(restricted, [PRIVATE_ID, CLIENT_ID]);
    var plain := WithoutAll(Without(own, NICK), [IPV6_ADDR, IPV4_ADDR]);
    WithoutAllIsFilter(args, RESTRICTED, NICK);
    WithoutAllIsFilter(restricted, [PRIVATE_ID, CLIENT_ID], NICK);
    WithoutIsFilter(own, NICK, NICK);
    WithoutAllIsFilter(Without(own, NICK), [IPV6_ADDR, IPV4_ADDR], NICK);
    WithoutAllIsFilter(plain, HEAVY, NICK);
  }

  /** The part of a connected user that INF messages are about. */
  class Client {
    var info: Message?

    ghost predicate Valid()
      reads this, info, if info != null then {info.cache} else {}
    {
      info != null ==> info.Ready()
    }

    /** An INF message while the user is connecting: the first good one becomes the info. */
    method Join(received: Message, c: Context) returns (ok: bool)
      requires Valid() && received.Ready() && Clean(c.address)
      modifies this
      ensures Valid()
      ensures old(info) != null ==> info == old(info) && ok
      ensures old(info) == null ==>
                (ok <==> Required(WithoutAll(received.args, RESTRICTED)) && c.identityOk && c.admitted && c.limitsOk)
      ensures old(info) == null && ok ==>
                info != null && info.head == received.head && info.args == LoginInfo(WithoutAll(received.args, RESTRICTED), c)
      ensures !ok ==> info == null
    {
      hide Message.Valid, LoginInfo, WithoutAll;
      var cmd := CopyReady(received);
      RemoveEach(cmd, RESTRICTED);
      if info != null {
        return true;
      }
      ok := HandleLogin(cmd, c);
      if ok {
        info := cmd;
      }
    }

    /** An INF message after login: what is left of it is written over the info and relayed. */
    method Update(received: Message, c: Context) returns (relayed: Message?)
      requires info != null && info.Ready() && received.Ready()
      modifies this
      ensures info != null && info.Ready() && info.head == old(info.head)
      ensures AllClean(received.args) && info.args == Apply(old(info.args), Change(received.args, c.low, c.limitsOk))
      ensures !c.limitsOk ==> info == old(info) && relayed == null
      ensures relayed != null <==> c.limitsOk && Unnamed(received.args, Dropped(c.low)) != []
      ensures relayed != null ==>
                relayed.Ready() && relayed.head == received.head && relayed.args == Unnamed(received.args, Dropped(c.low))
    {
      hide Message.Valid, UpdateArgs, Apply, Unnamed, Dropped;
      UpdateIsFilter(received.args, c.low);
      info, relayed := Weigh(info, received, c);
    }
  }

  method CopyReady(received: Message) returns (cmd: Message)
    requires received.Ready()
    ensures fresh(cmd) && fresh(cmd.cache) && cmd.Ready() && cmd.head == received.head && cmd.args == received.args
  {
    cmd := new Message.Copy(received);
    assert cmd.Valid();
    received.StartsText();
    cmd.StartsText();
  }

  /** Takes out what a user who is logged in may not change. */
  method StripOwn(cmd: Message)
    requires cmd.Ready()
    modifies cmd`cache, cmd`length, cmd`args, cmd.cache
    ensures cmd.cache == old(cmd.cache) || fresh(cmd.cache)
    ensures cmd.Ready() && cmd.args == Without(WithoutAll(WithoutAll(old(cmd.args), RESTRICTED), [PRIVATE_ID, CLIENT_ID]), NICK)
  {
    hide Message.Valid, WithoutAll, Without;
    RemoveEach(cmd, RESTRICTED);
    RemoveEach(cmd, [PRIVATE_ID, CLIENT_ID]);
    NoneLeft(cmd.args, NICK);
    var nicks := cmd.HasNamed(NICK);
    if nicks > 0 {
      nicks := cmd.RemoveNamed(NICK);
    }
  }

  /** Takes out the addresses and what is too much in low bandwidth mode. */
  method StripRest(cmd: Message, low: bool)
    requires cmd.Ready()
    modifies cmd`cache, cmd`length, cmd`args, cmd.cache
    ensures cmd.cache == old(cmd.cache) || fresh(cmd.cache)
    ensures cmd.Ready()
    ensures cmd.args == var plain := WithoutAll(old(cmd.args), [IPV6_ADDR, IPV4_ADDR]); if low then WithoutAll(plain, HEAVY) else plain
  {
    hide Message.Valid, WithoutAll;
    RemoveEach(cmd, [IPV6_ADDR, IPV4_ADDR]);
    if low {
      RemoveEach(cmd, HEAVY);
    }
  }

  /** A copy of an update with everything taken out that may not be in it. */
  method Reduce(received: Message, low: bool) returns (cmd: Message)
    requires received.Ready()
    ensures fresh(cmd) && fresh(cmd.cache) && cmd.Ready() && cmd.head == received.head
    ensures cmd.args == UpdateArgs(received.args, low)
  {
    hide Message.Valid, WithoutAll, Without;
    cmd := CopyReady(received);
    StripOwn(cmd);
    StripRest(cmd, low);
  }

  /** An update within the limits: the new info, and what goes out to the others unless there is nothing to say. */
  method Accept(info: Message, received: Message, low: bool) returns (updated: Message, relayed: Message?)
    requires info.Ready() && received.Ready()
    ensures updated.Ready() && updated.head == info.head
    ensures AllClean(received.args) && updated.args == Apply(info.args, Change(received.args, low, true))
    ensures relayed != null <==> UpdateArgs(received.args, low) != []
    ensures relayed != null ==> relayed.Ready() && relayed.head == received.head && relayed.args == UpdateArgs(received.args, low)
  {
    hide Message.Valid, UpdateArgs, Override;
    received.ArgsAreClean();
    UpdateIsClean(received.args, low);
    var cmd := Reduce(received, low);
    updated := UpdateInfo(info, cmd);
    var empty := cmd.IsEmpty();
    relayed := if empty then null else cmd;
  }

  /** An update: nothing comes of it when the limits are not met. */
  method Weigh(info: Message, received: Message, c: Context) returns (updated: Message, relayed: Message?)
    requires info.Ready() && received.Ready()
    ensures updated.Ready() && updated.head == info.head && (!c.limitsOk ==> updated == info)
    ensures AllClean(received.args) && updated.args == Apply(info.args, Change(received.args, c.low, c.limitsOk))
    ensures relayed != null <==> c.limitsOk && UpdateArgs(received.args, c.low) != []
    ensures relayed != null ==> relayed.Ready() && relayed.head == received.head && relayed.args == UpdateArgs(received.args, c.low)
  {
    hide Message.Valid, UpdateArgs;
    received.ArgsAreClean();
    // The copy is stripped before the limits are looked at, which shows only when they are met.
    if !c.limitsOk {
      return info, null;
    }
    updated, relayed := Accept(info, received, c.low);
  }

  // ----- Every sequence of updates

  /** An update as it arrives: its arguments, the mode of the hub and the verdict on the limits. */
  datatype Change = Change(args: seq<string>, low: bool, limitsOk: bool)

  function Apply(info: seq<string>, change: Change): seq<string>
    requires AllClean(change.args)
  {
    if !change.limitsOk then info
    else
      UpdateIsClean(change.args, change.low);
      Override(info, UpdateArgs(change.args, change.low))
  }

  predicate AllCleanChanges(changes: seq<Change>) {
    forall i :: 0 <= i < |changes| ==> AllClean(changes[i].args)
  }

  function ApplyAll(info: seq<string>, changes: seq<Change>): seq<string>
    requires AllCleanChanges(changes)
    decreases |changes|
  {
    if changes == [] then info else ApplyAll(Apply(info, changes[0]), changes[1..])
  }

  lemma NothingRead(update: seq<string>, p: Name)
    requires Pick(update, p) == []
    ensures Pick(Read(update), p) == []
  {
    if update != [] && update[0] != [] {
      NothingRead(update[1..], p);
    }
  }

  /** No sequence of updates changes who a user is. */
  lemma {:induction false} UpdatesKeepIdentity(info: seq<string>, changes: seq<Change>, p: Name)
    requires AllCleanChanges(changes) && p in IDENTITY
    ensures Pick(ApplyAll(info, changes), p) == Pick(info, p)
    decreases |changes|
  {
    if changes != [] {
      var change := changes[0];
      if change.limitsOk {
        var update := UpdateArgs(change.args, change.low);
        UpdateIsClean(change.args, change.low);
        UpdateHasNoIdentity(change.args, change.low, p);
        NothingRead(update, p);
        LastWriterWins(info, update, p);
      }
      UpdatesKeepIdentity(Apply(info, change), changes[1..], p);
    }
  }

  /** What a sequence of updates says under a name: the accepted ones, as far as they are read and the name may be updated. */
  function Said(changes: seq<Change>, p: Name): seq<string> {
    if changes == [] then []
    else
      (if changes[0].limitsOk then Pick(Read(Unnamed(changes[0].args, Dropped(changes[0].low))), p) else []) + Said(changes[1..], p)
  }

  /** After any sequence of updates a name has what the accepted ones said last, or what it had at first if they said nothing. */
  lemma {:induction false} LastWordStands(info: seq<string>, changes: seq<Change>, p: Name)
    requires AllCleanChanges(changes)
    ensures var said := Said(changes, p);
            Pick(ApplyAll(info, changes), p) == if said == [] then Pick(info, p) else [said[|said| - 1]]
    decreases |changes|
  {
    hide Pick, Read, Unnamed, UpdateArgs, Override, Dropped;
    if changes != [] {
      var change := changes[0];
      if change.limitsOk {
        UpdateIsFilter(change.args, change.low);
        UpdateIsClean(change.args, change.low);
        LastWriterWins(info, UpdateArgs(change.args, change.low), p);
      }
      LastWordStands(Apply(info, change), changes[1..], p);
    }
  }

  /** The info of a new user has one nick, one identifier, no private identifier and the client type the hub gave. */
  lemma LoginIdentity(args: seq<string>, c: Context)
    requires Required(WithoutAll(args, RESTRICTED))
    ensures var info := LoginInfo(WithoutAll(args, RESTRICTED), c);
            && Pick(info, NICK) == Pick(args, NICK) && Pick(info, CLIENT_ID) == Pick(args, CLIENT_ID)
            && Count(info, NICK) == 1 && Count(info, CLIENT_ID) == 1
            && Pick(info, PRIVATE_ID) == [] && Pick(info, CLIENT_TYPE) == TypeOf(c.cred)
            && Addressed(info, args, c.address, c.translated)
  {
    hide Pick, WithoutAll, Addressed, LoginInfo;
    LoginAddresses(args, c);
    NamesApart();
    LoginPick(args, c, NICK);
    LoginPick(args, c, CLIENT_ID);
    LoginPick(args, c, PRIVATE_ID);
    LoginPick(args, c, CLIENT_TYPE);
    WithoutAllIsFilter(args, RESTRICTED, NICK);
    WithoutAllIsFilter(args, RESTRICTED, CLIENT_ID);
  }

  /** The addresses in the info of a new user. */
  lemma LoginAddresses(args: seq<string>, c: Context)
    ensures var info := LoginInfo(WithoutAll(args, RESTRICTED), c);
            Addressed(info, args, c.address, c.translated) && Ported(info, args, c.address, c.translated)
  {
    hide Pick, WithoutAll, WithNetwork, AdmittedInfo, Addressed, Ported, Named;
    var own := WithoutAll(args, RESTRICTED);
    var seen := WithNetwork(own, c.address, c.translated);
    NetworkAddresses(own, c.address, c.translated);
    forall p: Name | OfNetwork(p) ensures Pick(seen, p) == Pick(LoginInfo(own, c), p) && Pick(own, p) == Pick(args, p) {
      NetworkNames(p);
      WithoutAllIsFilter(args, RESTRICTED, p);
      AdmittedPick(seen, c, p);
    }
    assert OfNetwork(IPV4_ADDR) && OfNetwork(IPV6_ADDR);
    SameAddresses(seen, LoginInfo(own, c), own, args, c.address, c.translated);
    SamePorts(seen, LoginInfo(own, c), own, args, c.address, c.translated);
  }

  lemma SameAddresses(info: seq<string>, info': seq<string>, args: seq<string>, args': seq<string>, address: string, translated: bool)
    requires Addressed(info, args, address, translated)
    requires Pick(info, IPV4_ADDR) == Pick(info', IPV4_ADDR) && Pick(info, IPV6_ADDR) == Pick(info', IPV6_ADDR)
    requires Pick(args, IPV4_ADDR) == Pick(args', IPV4_ADDR) && Pick(args, IPV6_ADDR) == Pick(args', IPV6_ADDR)
    ensures Addressed(info', args', address, translated)
  {
    hide Pick, Named;
  }

  lemma SamePorts(info: seq<string>, info': seq<string>, args: seq<string>, args': seq<string>, address: string, translated: bool)
    requires Ported(info, args, address, translated)
    requires forall p: Name :: OfNetwork(p) ==> Pick(info, p) == Pick(info', p) && Pick(args, p) == Pick(args', p)
    ensures Ported(info', args', address, translated)
  {
    hide Pick, Named;
    assert OfNetwork(IPV4_ADDR) && OfNetwork(IPV4_UDP_PORT) && OfNetwork(IPV6_UDP_PORT);
  }

  lemma NetworkNames(p: Name)
    requires OfNetwork(p)
    ensures p !in RESTRICTED && p !in HEAVY && p != PRIVATE_ID && p != CLIENT_TYPE
  {}

  lemma NamesApart()
    ensures !OfNetwork(NICK) && !OfNetwork(CLIENT_ID) && !OfNetwork(PRIVATE_ID) && !OfNetwork(CLIENT_TYPE)
    ensures NICK !in HEAVY && CLIENT_ID !in HEAVY && PRIVATE_ID !in HEAVY && CLIENT_TYPE !in HEAVY
    ensures NICK !in RESTRICTED && CLIENT_ID !in RESTRICTED && CLIENT_TYPE in RESTRICTED
  {
    assert RESTRICTED[0] == CLIENT_TYPE;
  }

  /** What the login does with the arguments of a name that is not of the network. */
  lemma LoginPick(args: seq<string>, c: Context, p: Name)
    requires !OfNetwork(p)
    ensures Pick(LoginInfo(WithoutAll(args, RESTRICTED), c), p)
         == (if p in RESTRICTED || p == PRIVATE_ID || (c.low && p in HEAVY) then [] else Pick(args, p))
            + if p == CLIENT_TYPE then TypeOf(c.cred) else []
  {
    var own := WithoutAll(args, RESTRICTED);
    WithoutAllIsFilter(args, RESTRICTED, p);
    NetworkKeeps(own, c.address, c.translated, p);
    AdmittedPick(WithNetwork(own, c.address, c.translated), c, p);
  }

  /** Replacing the arguments of some names by one argument keeps those of every other name. */
  lemma ReplaceKeeps(args: seq<string>, names: seq<Name>, q: Name, s: string, p: Name)
    requires p !in names && p != q
    ensures Pick(WithoutAll(args, names) + [q + s], p) == Pick(args, p)
  {
    WithoutAllIsFilter(args, names, p);
    PickAppend(WithoutAll(args, names), [q + s], p);
    NamedBy(q, s, p);
  }

  /** The four names that the hub may set or drop for the network. */
  predicate OfNetwork(p: Name) {
    p == IPV4_ADDR || p == IPV6_ADDR || p == IPV4_UDP_PORT || p == IPV6_UDP_PORT
  }

  lemma NetworkKeeps(args: seq<string>, address: string, translated: bool, p: Name)
    requires !OfNetwork(p)
    ensures Pick(WithNetwork(args, address, translated), p) == Pick(args, p)
  {
    hide Pick, WithoutAll, Lookup;
    WithoutAllIsFilter(args, [IPV6_ADDR, IPV6_UDP_PORT], p);
    ReplaceKeeps(args, [IPV6_ADDR, IPV6_UDP_PORT, IPV4_ADDR], IPV4_ADDR, address, p);
    ReplaceKeeps(args, [IPV4_ADDR, IPV4_UDP_PORT, IPV6_ADDR], IPV6_ADDR, address, p);
  }

  lemma TypeIsNamed(cred: Credentials, p: Name)
    ensures Pick(TypeOf(cred), p) == if p == CLIENT_TYPE then TypeOf(cred) else []
  {
    var t := TypeOf(cred);
    if t != [] {
      assert t[0][..2] == CLIENT_TYPE;
    }
  }

  lemma AdmittedPick(args: seq<string>, c: Context, p: Name)
    ensures Pick(AdmittedInfo(args, c), p)
         == (if p == PRIVATE_ID || (c.low && p in HEAVY) then [] else Pick(args, p)) + if p == CLIENT_TYPE then TypeOf(c.cred) else []
  {
    NamesApart();
    var public := WithoutAll(args, [PRIVATE_ID]);
    WithoutAllIsFilter(args, [PRIVATE_ID], p);
    PickAppend(public, TypeOf(c.cred), p);
    TypeIsNamed(c.cred, p);
    WithoutAllIsFilter(public + TypeOf(c.cred), HEAVY, p);
  }

  /** From login on, over any sequence of updates: one nick, one identifier, both as given; no private identifier; the hub's type and address. */
  lemma InfoOverARun(args: seq<string>, c: Context, changes: seq<Change>)
    requires Required(WithoutAll(args, RESTRICTED)) && AllCleanChanges(changes)
    ensures var info := ApplyAll(LoginInfo(WithoutAll(args, RESTRICTED), c), changes);
            && Count(info, NICK) == 1 && Pick(info, NICK) == Pick(args, NICK)
            && Count(info, CLIENT_ID) == 1 && Pick(info, CLIENT_ID) == Pick(args, CLIENT_ID)
            && Count(info, PRIVATE_ID) == 0 && Pick(info, CLIENT_TYPE) == TypeOf(c.cred)
            && Addressed(info, args, c.address, c.translated)
  {
    hide WithoutAll, ApplyAll, LoginInfo;
    var info := LoginInfo(WithoutAll(args, RESTRICTED), c);
    LoginIdentity(args, c);
    assert IDENTITY == [NICK, CLIENT_ID, CLIENT_TYPE, IPV4_ADDR, IPV6_ADDR, PRIVATE_ID];
    UpdatesKeepIdentity(info, changes, NICK);
    UpdatesKeepIdentity(info, changes, CLIENT_ID);
    UpdatesKeepIdentity(info, changes, PRIVATE_ID);
    UpdatesKeepIdentity(info, changes, CLIENT_TYPE);
    UpdatesKeepIdentity(info, changes, IPV4_ADDR);
    UpdatesKeepIdentity(info, changes, IPV6_ADDR);
    SameAddresses(info, ApplyAll(info, changes), args, args, c.address, c.translated);
  }
}
