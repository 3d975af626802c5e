/** Parsing a line into a message and building messages: `adc_msg_parse` and `adc_msg_construct*` of `src/adc/message.c`. */
module AdcParse {
  import opened Sequences
  import opened Options
  import opened AdcArgs
  import opened AdcEscape
  import opened AdcMessage
  import opened SidText
  import Base32
  import Utf8

  // ----- Acceptable text

  predicate Narrow(s: string) {
    forall i :: 0 <= i < |s| ==> s[i] as int < 256
  }

  function Octets(s: string): seq<Utf8.Byte>
    requires Narrow(s)
  {
    seq(|s|, i requires 0 <= i < |s| => s[i] as int)
  }

  /** Text that passes the checks on a whole line. */
  ghost predicate Good(s: string) {
    Narrow(s) && Utf8.PrintableText(Octets(s)) && WellEscaped(s)
  }

  // ----- What a line says

  /** A session identifier behind the space at `start`. */
  function SidAt(line: string, start: nat): Option<nat> {
    if |line| > start + 4 && line[start] == ' ' && IsSidText(line[start + 1..start + 5]) then
      Some(FromText(line[start + 1..start + 5]))
    else None
  }

  /** The features a message asks for and those it excludes, each behind its sign; a cut off one is dropped. */
  function FeaturesFrom(line: string, n: nat, wanted: seq<string>, unwanted: seq<string>): (nat, seq<string>, seq<string>)
    decreases |line| - n
  {
    if n >= |line| || (line[n] != '+' && line[n] != '-') then (n, wanted, unwanted)
    else if |line| <= n + 5 then (n + 1, wanted, unwanted)
    else if line[n] == '+' then FeaturesFrom(line, n + 5, wanted + [line[n + 1..n + 5]], unwanted)
    else FeaturesFrom(line, n + 5, wanted, unwanted + [line[n + 1..n + 5]])
  }

  /** A feature of four characters that a message asks for or excludes. */
  datatype Feature = Feature(wanted: bool, name: string)

  predicate AllFeatures(fs: seq<Feature>) {
    forall i :: 0 <= i < |fs| ==> |fs[i].name| == 4
  }

  /** The text of a list of features. */
  function Marked(fs: seq<Feature>): (s: string)
    requires AllFeatures(fs)
    ensures |s| == 5 * |fs|
  {
    if fs == [] then [] else [if fs[0].wanted then '+' else '-'] + fs[0].name + Marked(fs[1..])
  }

  /** The names of the features that are asked for, or of those that are excluded, in order. */
  function Names(fs: seq<Feature>, wanted: bool): seq<string> {
    if fs == [] then [] else (if fs[0].wanted == wanted then [fs[0].name] else []) + Names(fs[1..], wanted)
  }

  lemma {:induction false} NamesAreShared(fs: seq<Feature>)
    ensures |Names(fs, true)| + |Names(fs, false)| == |fs|
  {
    if fs != [] { NamesAreShared(fs[1..]); }
  }

  /** The features are read off their text, each to the list of its sign. */
  lemma {:induction false} FeaturesRead(line: string, head: string, fs: seq<Feature>, rest: string, wanted: seq<string>, unwanted: seq<string>)
    requires AllFeatures(fs) && line == head + Marked(fs) + rest && rest != [] && rest[0] != '+' && rest[0] != '-'
    ensures FeaturesFrom(line, |head|, wanted, unwanted)
         == (|head| + 5 * |fs|, wanted + Names(fs, true), unwanted + Names(fs, false))
    decreases |fs|
  {
    if fs == [] {
      assert line[|head|] == rest[0];
      assert wanted + [] == wanted && unwanted + [] == unwanted;
    } else {
      var f, more := fs[0], fs[1..];
      var sign := if f.wanted then '+' else '-';
      var next := head + ([sign] + f.name);
      FeatureParts(line, head, sign, f.name, Marked(more), rest);
      var w, u := if f.wanted then wanted + [f.name] else wanted, if f.wanted then unwanted else unwanted + [f.name];
      FeaturesRead(line, next, more, rest, w, u);
      Assemble(wanted, if f.wanted then [f.name] else [], Names(more, true));
      Assemble(unwanted, if f.wanted then [] else [f.name], Names(more, false));
      assert wanted + [] == wanted && unwanted + [] == unwanted;
    }
  }

  lemma FeatureParts(line: string, head: string, sign: char, name: string, more: string, rest: string)
    requires |name| == 4 && rest != [] && line == head + ([sign] + name + more) + rest
    ensures line == head + ([sign] + name) + more + rest
    ensures |line| > |head| + 5 && line[|head|] == sign && line[|head| + 1..|head| + 5] == name
  {}

  lemma FeatureFirst(f: Feature, more: seq<Feature>)
    requires |f.name| == 4 && AllFeatures(more)
    ensures AllFeatures([f] + more) && Marked([f] + more) == [if f.wanted then '+' else '-'] + f.name + Marked(more)
    ensures forall wanted :: Names([f] + more, wanted) == (if f.wanted == wanted then [f.name] else []) + Names(more, wanted)
  {
    assert ([f] + more)[1..] == more;
  }

  lemma SignAndName(line: string, n: nat, m: nat)
    requires n + 5 <= m <= |line|
    ensures line[n..m] == [line[n]] + line[n + 1..n + 5] + line[n + 5..m]
  {}

  /** Whatever is read as features is the text of features, up to a sign that too little follows. */
  lemma {:induction false} FeaturesParsed(line: string, n: nat, wanted: seq<string>, unwanted: seq<string>) returns (fs: seq<Feature>)
    requires n <= |line|
    ensures AllFeatures(fs) && n + 5 * |fs| <= |line| && line[n..n + 5 * |fs|] == Marked(fs)
    ensures var (m, w, u) := FeaturesFrom(line, n, wanted, unwanted);
            && w == wanted + Names(fs, true) && u == unwanted + Names(fs, false)
            && (m == n + 5 * |fs| || (n + 5 * |fs| < |line| && (line[n + 5 * |fs|] == '+' || line[n + 5 * |fs|] == '-')))
    decreases |line| - n
  {
    if n < |line| && (line[n] == '+' || line[n] == '-') && |line| > n + 5 {
      hide Marked, Names;
      var f := Feature(line[n] == '+', line[n + 1..n + 5]);
      var w, u := if f.wanted then wanted + [f.name] else wanted, if f.wanted then unwanted else unwanted + [f.name];
      var more := FeaturesParsed(line, n + 5, w, u);
      fs := [f] + more;
      FeatureFirst(f, more);
      SignAndName(line, n, n + 5 * |fs|);
      Assemble(wanted, if f.wanted then [f.name] else [], Names(more, true));
      Assemble(unwanted, if f.wanted then [] else [f.name], Names(more, false));
    } else {
      fs := [];
    }
    assert wanted + [] == wanted && unwanted + [] == unwanted;
  }

  datatype Envelope = Envelope(source: nat, target: nat, wanted: seq<string>, unwanted: seq<string>)

  /** Who a line is from and for, by the first character of its command. */
  function EnvelopeOf(line: string): Option<Envelope>
    requires |line| >= 4
  {
    var kind := line[0];
    if kind == 'I' || kind == 'H' then Some(Envelope(0, 0, [], []))
    else if kind !in "BFDE" || SidAt(line, 4).None? then None
    else
      var source := SidAt(line, 4).value;
      if kind == 'B' then Some(Envelope(source, 0, [], []))
      else if kind == 'F' then
        var (n, wanted, unwanted) := FeaturesFrom(line, 10, [], []);
        if n == 10 then None else Some(Envelope(source, 0, wanted, unwanted))
      else if SidAt(line, 9).None? then None
      else Some(Envelope(source, SidAt(line, 9).value, [], []))
  }

  function OffsetOf(line: string): int
    requires |line| >= 4 && EnvelopeOf(line).Some?
  {
    ArgOffset(line[0], |EnvelopeOf(line).value.wanted| + |EnvelopeOf(line).value.unwanted|)
  }

  /** A line that becomes a message. */
  ghost predicate Accepted(line: string) {
    && |line| >= 4 && Good(line) && EnvelopeOf(line).Some?
    && OffsetOf(line) < |line| && (line[OffsetOf(line)] == ' ' || line[OffsetOf(line)] == '\n')
  }

  lemma OffsetIsPositive(line: string)
    requires |line| >= 4 && EnvelopeOf(line).Some?
    ensures OffsetOf(line) >= 4
  {}

  /** An accepted line with no newline before its end and no space right before the arguments. */
  ghost predicate Regular(line: string) {
    Accepted(line) && '\n' !in line[..|line| - 1] && line[OffsetOf(line) - 1] != ' '
  }

  ghost function HeadOf(line: string): string
    requires Accepted(line)
  {
    Ended(line)[..OffsetOf(line)]
  }

  ghost function BodyOf(line: string): string
    requires Accepted(line)
  {
    Ended(line)[OffsetOf(line)..|Ended(line)| - 1]
  }

  lemma RegularParts(line: string)
    requires Regular(line)
    ensures Body(BodyOf(line)) && '\n' !in BodyOf(line) && Start(HeadOf(line))
    ensures Ended(line) == HeadOf(line) + BodyOf(line) + ['\n']
  {
    hide Good, EnvelopeOf, WellEscaped;
    OffsetIsPositive(line);
    var n, text := OffsetOf(line), Ended(line);
    assert text[..|text| - 1] == if line[|line| - 1] == '\n' then line[..|line| - 1] else line;
    assert line[n - 1] == line[..|line| - 1][n - 1];
    forall i | 0 <= i < |BodyOf(line)| ensures BodyOf(line)[i] != '\n' {
      assert BodyOf(line)[i] == line[n + i];
    }
  }

  lemma NoNul(line: string)
    requires Good(line)
    ensures '\0' !in line
  {
    forall i | 0 <= i < |line| ensures line[i] != '\0' {
      assert Octets(line)[i] == line[i] as int;
    }
  }

  // ----- Parsing

  /** The features stand in the line where those of an F message stand, and no further one follows. */
  ghost predicate Lists(line: string, fs: seq<Feature>) {
    AllFeatures(fs) && |line| > 10 + 5 * |fs| && line[10..10 + 5 * |fs|] == Marked(fs)
    && line[10 + 5 * |fs|] != '+' && line[10 + 5 * |fs|] != '-'
  }

  method ScanFeatures(line: string) returns (n: nat, wanted: seq<string>, unwanted: seq<string>)
    ensures (n, wanted, unwanted) == FeaturesFrom(line, 10, [], [])
    ensures forall fs :: Lists(line, fs) ==> n == 10 + 5 * |fs| && wanted == Names(fs, true) && unwanted == Names(fs, false)
  {
    hide Lists;
    forall fs | Lists(line, fs) { FeaturesMeant(line, fs); }
    n, wanted, unwanted := 10, [], [];
    while n < |line| && (line[n] == '+' || line[n] == '-')
      invariant FeaturesFrom(line, n, wanted, unwanted) == FeaturesFrom(line, 10, [], [])
      decreases |line| - n
    {
      var plus := line[n] == '+';
      n := n + 1;
      if |line| <= n + 4 {
        break;
      }
      if plus {
        wanted := wanted + [line[n..n + 4]];
      } else {
        unwanted := unwanted + [line[n..n + 4]];
      }
      n := n + 4;
    }
  }

  /** The reading of the start of a line, case by case. */
  method ReadEnvelope(line: string) returns (e: Option<Envelope>)
    requires |line| >= 4
    ensures e == EnvelopeOf(line)
  {
    match line[0]
    case 'I' => e := Some(Envelope(0, 0, [], []));
    case 'H' => e := Some(Envelope(0, 0, [], []));
    case 'B' =>
      var source := SidAt(line, 4);
      e := if source.None? then None else Some(Envelope(source.value, 0, [], []));
    case 'F' =>
      var source := SidAt(line, 4);
      if source.None? {
        return None;
      }
      var n, wanted, unwanted := ScanFeatures(line);
      e := if n == 10 then None else Some(Envelope(source.value, 0, wanted, unwanted));
    case 'D' => e := ReadBoth(line);
    case 'E' => e := ReadBoth(line);
    case _ => e := None;
  }

  method ReadBoth(line: string) returns (e: Option<Envelope>)
    requires |line| >= 4 && (line[0] == 'D' || line[0] == 'E')
    ensures e == EnvelopeOf(line)
  {
    var source := SidAt(line, 4);
    if source.None? {
      return None;
    }
    var target := SidAt(line, 9);
    e := if target.None? then None else Some(Envelope(source.value, target.value, [], []));
  }

  /** A line becomes a message exactly when it is accepted; the message holds the line and what the line says. */
  method Parse(line: string) returns (msg: Message?)
    requires Narrow(line)
    ensures msg != null <==> Accepted(line)
    ensures msg != null ==> fresh(msg) && fresh(msg.cache) && msg.Sound() && msg.Text() == Ended(line)
    ensures msg != null ==> msg.command == line[..4]
    ensures msg != null ==> Envelope(msg.source, msg.target, msg.wanted, msg.unwanted) == EnvelopeOf(line).value
    ensures msg != null && Regular(line) ==> msg.Ready() && msg.head == HeadOf(line) && msg.args == ArgsOf(line)
  {
    if |line| < 4 {
      return null;
    }
    var printable := Utf8.IsPrintable(Octets(line));
    if !printable {
      return null;
    }
    var escapes := CheckEscapes(line);
    if !escapes {
      return null;
    }
    var e := ReadEnvelope(line);
    if e.None? {
      return null;
    }
    OffsetIsPositive(line);
    var n := ArgOffset(line[0], |e.value.wanted| + |e.value.unwanted|);
    if n >= |line| || (line[n] != ' ' && line[n] != '\n') {
      return null;
    }
    msg := Store(line, e.value);
  }

  /** The message of an accepted line. */
  method Store(line: string, e: Envelope) returns (msg: Message)
    requires Accepted(line) && Some(e) == EnvelopeOf(line)
    ensures fresh(msg) && fresh(msg.cache) && msg.Sound() && msg.Text() == Ended(line) && msg.command == line[..4]
    ensures Envelope(msg.source, msg.target, msg.wanted, msg.unwanted) == e
    ensures Regular(line) ==> msg.Ready() && msg.head == HeadOf(line) && msg.args == ArgsOf(line)
  {
    NoNul(line);
    OffsetIsPositive(line);
    msg := new Message.Receive(line, line[..4], e.source, e.target, e.wanted, e.unwanted, HeadOf(line), ArgsOf(line));
    if Regular(line) {
      StoredIsReady(msg, line);
    }
  }

  /** The arguments of a regular line: what is left after the start and before the newline, split at the spaces. */
  ghost function ArgsOf(line: string): seq<string>
    requires Accepted(line)
  {
    if Regular(line) then RegularParts(line); Split(BodyOf(line)) else []
  }

  lemma StoredIsReady(msg: Message, line: string)
    requires Regular(line) && msg.Sound() && msg.Text() == Ended(line)
    requires msg.head == HeadOf(line) && msg.args == ArgsOf(line)
    requires Envelope(msg.source, msg.target, msg.wanted, msg.unwanted) == EnvelopeOf(line).value
    ensures msg.Ready()
  {
    RegularWhole(line);
    assert msg.Valid();
    msg.StartsText();
  }

  /** A regular line is the text of a message. */
  lemma RegularWhole(line: string)
    requires Regular(line)
    ensures Body(BodyOf(line)) && AllClean(Split(BodyOf(line))) && Start(HeadOf(line))
    ensures Ended(line) == Whole(HeadOf(line), Split(BodyOf(line)))
    ensures |HeadOf(line)| == OffsetOf(line) && HeadOf(line)[0] == line[0]
  {
    OffsetIsPositive(line);
    RegularParts(line);
    JoinSplit(BodyOf(line));
    BodyIsClean(line);
  }

  lemma BodyIsClean(line: string)
    requires Regular(line)
    ensures Body(BodyOf(line)) && AllClean(Split(BodyOf(line)))
  {
    NoNul(line);
    RegularParts(line);
    SplitIsClean(BodyOf(line));
  }

  // ----- Building

  lemma SidIsClean(sid: nat)
    requires sid < SID_LIMIT
    ensures Clean(ToText(sid)) && Start(ToText(sid)) && Split([' '] + ToText(sid)) == [ToText(sid)]
  {
    var s := ToText(sid);
    assert forall i :: 0 <= i < 4 ==> Base32.Value(s[i]) != -1;
    SplitJoin([s]);
    assert Join([s]) == [' '] + s + [];
    assert Join([s]) == [' '] + s;
  }

  /** Counts the only argument as a part of the start. */
  ghost method AbsorbFirst(msg: Message, arg: string)
    requires msg.Valid() && msg.args == [arg] && Start(arg)
    modifies msg`head, msg`args
    ensures msg.Valid() && msg.head == old(msg.head) + [' '] + arg && msg.args == []
  {
    assert Join([arg]) == [' '] + arg + [];
    msg.head := msg.head + [' '] + arg;
    msg.args := [];
    assert msg.Text() == Whole(msg.head, []);
  }

  /** Adds an identifier to a message without arguments, as a part of its start. */
  method AddSid(msg: Message, sid: nat)
    requires msg.Valid() && msg.args == [] && sid < SID_LIMIT
    modifies msg`cache, msg`length, msg`head, msg`args, msg.cache
    ensures msg.cache == old(msg.cache) || fresh(msg.cache)
    ensures msg.Valid() && msg.head == old(msg.head) + [' '] + ToText(sid) && msg.args == []
  {
    SidIsClean(sid);
    msg.AddArgument(ToText(sid));
    AbsorbFirst(msg, ToText(sid));
  }

  /** A command with the sender in its start. */
  method ConstructSource(fourcc: string, source: nat, size: nat) returns (msg: Message)
    requires |fourcc| == 4 && Start(fourcc) && '\0' !in fourcc && source < SID_LIMIT
    ensures fresh(msg) && fresh(msg.cache) && msg.Valid() && msg.head == fourcc + [' '] + ToText(source) && msg.args == []
    ensures msg.command == fourcc && msg.source == source && msg.target == 0 && msg.wanted == [] && msg.unwanted == []
    ensures fourcc[0] == 'B' ==> msg.Ready()
  {
    hide ToText, Message.Valid;
    msg := new Message.Construct(fourcc, size + 4 + 1);
    AddSid(msg, source);
    msg.source := source;
    msg.StartsText();
  }

  /** A command with the sender and the receiver in its start. */
  method ConstructSourceDest(fourcc: string, source: nat, dest: nat, size: nat) returns (msg: Message)
    requires |fourcc| == 4 && Start(fourcc) && '\0' !in fourcc && source < SID_LIMIT && dest < SID_LIMIT
    ensures fresh(msg) && fresh(msg.cache) && msg.Valid() && msg.args == []
    ensures msg.head == fourcc + [' '] + ToText(source) + [' '] + ToText(dest)
    ensures msg.command == fourcc && msg.source == source && msg.target == dest && msg.wanted == [] && msg.unwanted == []
    ensures fourcc[0] == 'D' || fourcc[0] == 'E' ==> msg.Ready()
  {
    hide ToText, Message.Valid;
    msg := new Message.Construct(fourcc, size + 4 + 4 + 1);
    AddSid(msg, source);
    AddSid(msg, dest);
    msg.source := source;
    msg.target := dest;
    msg.StartsText();
  }

  // ----- The start of a message

  /** The start of a message, by the kind of its command. */
  function HeadText(cmd: string, source: nat, target: nat, fs: seq<Feature>): (head: string)
    requires |cmd| == 4 && source < SID_LIMIT && target < SID_LIMIT && AllFeatures(fs)
    ensures |head| >= 4
  {
    if cmd[0] == 'B' then cmd + [' '] + ToText(source)
    else if cmd[0] == 'D' || cmd[0] == 'E' then cmd + [' '] + ToText(source) + [' '] + ToText(target)
    else if cmd[0] == 'F' then cmd + [' '] + ToText(source) + [' '] + Marked(fs)
    else cmd
  }

  /** What a start says. */
  function EnvelopeFor(cmd: string, source: nat, target: nat, fs: seq<Feature>): Envelope
    requires |cmd| == 4
  {
    Envelope(if cmd[0] in "BFDE" then source else 0, if cmd[0] in "DE" then target else 0,
             if cmd[0] == 'F' then Names(fs, true) else [], if cmd[0] == 'F' then Names(fs, false) else [])
  }

  lemma HeadParts(cmd: string, source: nat, target: nat, fs: seq<Feature>)
    requires |cmd| == 4 && source < SID_LIMIT && target < SID_LIMIT && AllFeatures(fs)
    ensures var head := HeadText(cmd, source, target, fs);
            && head[..4] == cmd
            && (cmd[0] in "BFDE" ==> |head| >= 9 && head[4] == ' ' && head[5..9] == ToText(source))
            && (cmd[0] == 'B' ==> |head| == 9)
            && (cmd[0] in "DE" ==> |head| == 14 && head[9] == ' ' && head[10..14] == ToText(target))
            && (cmd[0] == 'F' ==> |head| == 10 + 5 * |fs| && head[9] == ' ' && head[10..] == Marked(fs))
            && (cmd[0] !in "BFDE" ==> |head| == 4)
  {
    hide ToText, Marked;
  }

  /** The line begins with a proper start, behind which the arguments or the end follow; what stands before the features is not looked at. */
  ghost predicate Begins(line: string, source: nat, target: nat, fs: seq<Feature>) {
    && |line| >= 4 && line[0] in "IHBFDE" && source < SID_LIMIT && target < SID_LIMIT
    && AllFeatures(fs) && (line[0] == 'F' ==> fs != [])
    && var head := HeadText(line[..4], source, target, fs);
       && |head| < |line| && (line[|head|] == ' ' || line[|head|] == '\n')
       && if line[0] == 'F' then line[..9] == head[..9] && line[10..|head|] == head[10..] else line[..|head|] == head
  }

  lemma SidThere(line: string, at: nat, sid: nat)
    requires sid < SID_LIMIT && |line| > at + 4 && line[at] == ' ' && line[at + 1..at + 5] == ToText(sid)
    ensures SidAt(line, at) == Some(sid)
  {
    hide ToText, FromText;
    FromToText(sid);
  }

  /** The identifiers stand in the line where they stand in its start. */
  lemma SidsAreThere(line: string, source: nat, target: nat, fs: seq<Feature>)
    requires Begins(line, source, target, fs)
    ensures line[0] in "BFDE" ==> SidAt(line, 4) == Some(source)
    ensures line[0] in "DE" ==> SidAt(line, 9) == Some(target)
  {
    hide ToText, HeadText, SidAt;
    var head := HeadText(line[..4], source, target, fs);
    HeadParts(line[..4], source, target, fs);
    if line[0] in "BFDE" {
      assert line[..9] == head[..9] by { assert line[..9] == line[..|head|][..9] || line[0] == 'F'; }
      assert line[5..9] == line[..9][5..9] == head[..9][5..9] == head[5..9];
      assert line[4] == line[..9][4] == head[4];
      SidThere(line, 4, source);
    }
    if line[0] in "DE" {
      assert line[10..14] == line[..14][10..14] == head[10..14];
      assert line[9] == line[..14][9];
      SidThere(line, 9, target);
    }
  }

  lemma FeaturesMeant(line: string, fs: seq<Feature>)
    requires Lists(line, fs)
    ensures FeaturesFrom(line, 10, [], []) == (10 + 5 * |fs|, Names(fs, true), Names(fs, false))
  {
    hide FeaturesFrom, Marked, Names;
    var rest := line[10 + 5 * |fs|..];
    assert line == line[..10] + line[10..10 + 5 * |fs|] + rest;
    FeaturesRead(line, line[..10], fs, rest, [], []);
    assert [] + Names(fs, true) == Names(fs, true) && [] + Names(fs, false) == Names(fs, false);
  }

  /** A line that begins properly says what its start says, and its arguments follow the start. */
  lemma BeginsMeans(line: string, source: nat, target: nat, fs: seq<Feature>)
    requires Begins(line, source, target, fs)
    ensures EnvelopeOf(line) == Some(EnvelopeFor(line[..4], source, target, fs))
    ensures OffsetOf(line) == |HeadText(line[..4], source, target, fs)|
  {
    hide ToText, SidAt, HeadText, FeaturesFrom, Marked;
    var head := HeadText(line[..4], source, target, fs);
    HeadParts(line[..4], source, target, fs);
    SidsAreThere(line, source, target, fs);
    if line[0] == 'F' {
      FeaturesMeant(line, fs);
      NamesAreShared(fs);
    }
  }

  lemma ReadSidText(line: string, at: nat)
    requires SidAt(line, at).Some?
    ensures SidAt(line, at).value < SID_LIMIT
    ensures |line| > at + 4 && line[at] == ' ' && line[at + 1..at + 5] == ToText(SidAt(line, at).value)
  {
    hide ToText, FromText;
    ToFromText(line[at + 1..at + 5]);
  }

  lemma FeaturesOf(line: string) returns (fs: seq<Feature>)
    requires |line| >= 4 && line[0] == 'F' && EnvelopeOf(line).Some?
    requires OffsetOf(line) < |line| && (line[OffsetOf(line)] == ' ' || line[OffsetOf(line)] == '\n')
    ensures AllFeatures(fs) && fs != [] && OffsetOf(line) == 10 + 5 * |fs| && line[10..10 + 5 * |fs|] == Marked(fs)
  {
    hide SidAt, FeaturesFrom, Marked;
    fs := FeaturesParsed(line, 10, [], []);
    assert [] + Names(fs, true) == Names(fs, true) && [] + Names(fs, false) == Names(fs, false);
    NamesAreShared(fs);
  }

  /** A line with an envelope and a space or newline behind its start begins properly. */
  lemma BeginsSomehow(line: string) returns (source: nat, target: nat, fs: seq<Feature>)
    requires |line| >= 4 && EnvelopeOf(line).Some?
    requires OffsetOf(line) < |line| && (line[OffsetOf(line)] == ' ' || line[OffsetOf(line)] == '\n')
    ensures Begins(line, source, target, fs)
  {
    hide ToText, SidAt, FeaturesFrom, Marked, HeadText;
    source, target, fs := 0, 0, [];
    if line[0] in "BFDE" {
      source := SidAt(line, 4).value;
      ReadSidText(line, 4);
    }
    if line[0] in "DE" {
      target := SidAt(line, 9).value;
      ReadSidText(line, 9);
    }
    if line[0] == 'F' {
      fs := FeaturesOf(line);
    }
    HeadParts(line[..4], source, target, fs);
  }

  /** A line is accepted exactly when its text is good and it begins with a proper start. */
  lemma AcceptedExactly(line: string)
    ensures Accepted(line) <==> Good(line) && exists source, target, fs :: Begins(line, source, target, fs)
  {
    hide Begins, Good;
    if Accepted(line) {
      var source, target, fs := BeginsSomehow(line);
      assert Begins(line, source, target, fs);
    }
    if exists source, target, fs :: Begins(line, source, target, fs) {
      var source, target, fs :| Begins(line, source, target, fs);
      BeginsMeans(line, source, target, fs);
      BehindStart(line, source, target, fs);
    }
  }

  lemma BehindStart(line: string, source: nat, target: nat, fs: seq<Feature>)
    requires Begins(line, source, target, fs)
    ensures |line| >= 4 && source < SID_LIMIT && target < SID_LIMIT && AllFeatures(fs)
    ensures var n := |HeadText(line[..4], source, target, fs)|; n < |line| && (line[n] == ' ' || line[n] == '\n')
  {}

  // ----- Parsing undoes building

  lemma {:induction false} EscapesConcat(a: string, b: string)
    requires WellEscaped(a) && WellEscaped(b)
    ensures WellEscaped(a + b)
    decreases |a|
  {
    if a == [] {
      assert a + b == b;
    } else if a[0] != '\\' {
      EscapesConcat(a[1..], b);
      assert (a + b)[1..] == a[1..] + b;
    } else {
      EscapesConcat(a[2..], b);
      assert (a + b)[2..] == a[2..] + b;
    }
  }

  lemma GoodConcat(a: string, b: string)
    requires Good(a) && Good(b)
    ensures Good(a + b)
  {
    EscapesConcat(a, b);
    assert Octets(a + b) == Octets(a) + Octets(b);
    Utf8.ValidConcat(Octets(a), Octets(b));
  }

  /** A single plain character. */
  lemma GoodChar(c: char)
    requires (32 <= c as int < 127 && c != '\\') || c == '\n'
    ensures Good([c])
  {
    var s := Octets([c]);
    assert s[..1] == s && s[1..] == [];
    assert Utf8.Sequence(s[..1]) && Utf8.Valid(s[1..]);
    assert WellEscaped([c][1..]);
  }

  lemma {:induction false} GoodChars(s: string)
    requires forall i :: 0 <= i < |s| ==> 32 <= s[i] as int < 127 && s[i] != '\\'
    ensures Good(s)
  {
    if s == [] {
      assert Octets(s) == [];
    } else {
      GoodChar(s[0]);
      GoodChars(s[1..]);
      GoodConcat([s[0]], s[1..]);
      assert s == [s[0]] + s[1..];
    }
  }

  lemma SidPart(sid: nat)
    requires sid < SID_LIMIT
    ensures Good(ToText(sid))
  {
    var s := ToText(sid);
    assert forall i :: 0 <= i < 4 ==> Base32.Value(s[i]) != -1;
    GoodChars(s);
  }

  lemma GoodWithSid(s: string, sid: nat)
    requires Good(s) && sid < SID_LIMIT
    ensures Good(s + [' '] + ToText(sid))
  {
    GoodChar(' ');
    SidPart(sid);
    GoodConcat(s, [' ']);
    GoodConcat(s + [' '], ToText(sid));
  }

  ghost predicate AllGood(args: seq<string>) {
    forall i :: 0 <= i < |args| ==> Good(args[i])
  }

  lemma {:induction false} GoodJoin(args: seq<string>)
    requires AllGood(args)
    ensures Good(Join(args))
  {
    if args == [] {
      GoodChars([]);
    } else {
      GoodJoin(args[1..]);
      GoodChar(' ');
      GoodConcat([' '], args[0]);
      GoodConcat([' '] + args[0], Join(args[1..]));
    }
  }

  /** Features whose names can stand in the text of a message. */
  ghost predicate GoodFeatures(fs: seq<Feature>) {
    AllFeatures(fs) && forall i :: 0 <= i < |fs| ==> Clean(fs[i].name) && Good(fs[i].name)
  }

  lemma {:induction false} GoodMarked(fs: seq<Feature>)
    requires GoodFeatures(fs)
    ensures Good(Marked(fs)) && Clean(Marked(fs))
  {
    hide Good;
    if fs == [] {
      GoodChars([]);
    } else {
      var sign := if fs[0].wanted then '+' else '-';
      GoodMarked(fs[1..]);
      GoodChar(sign);
      GoodConcat([sign], fs[0].name);
      GoodConcat([sign] + fs[0].name, Marked(fs[1..]));
    }
  }

  lemma GoodHead(cmd: string, source: nat, target: nat, fs: seq<Feature>)
    requires |cmd| == 4 && Good(cmd) && source < SID_LIMIT && target < SID_LIMIT && GoodFeatures(fs)
    ensures Good(HeadText(cmd, source, target, fs))
  {
    hide Good, ToText, Marked;
    if cmd[0] in "BFDE" {
      GoodWithSid(cmd, source);
      GoodWithSid(cmd + [' '] + ToText(source), target);
      GoodMarked(fs);
      GoodChar(' ');
      GoodConcat(cmd + [' '] + ToText(source), [' ']);
      GoodConcat(cmd + [' '] + ToText(source) + [' '], Marked(fs));
    }
  }

  lemma {:induction false} JoinHasNoNewline(args: seq<string>)
    requires AllClean(args)
    ensures '\n' !in Join(args)
  {
    if args != [] {
      JoinHasNoNewline(args[1..]);
    }
  }

  lemma HeadIsClean(cmd: string, source: nat, target: nat, fs: seq<Feature>)
    requires |cmd| == 4 && Clean(cmd) && source < SID_LIMIT && target < SID_LIMIT && GoodFeatures(fs)
    requires cmd[0] == 'F' ==> fs != []
    ensures var head := HeadText(cmd, source, target, fs); Start(head) && '\n' !in head
  {
    hide ToText, Marked, Good;
    SidIsClean(source);
    SidIsClean(target);
    GoodMarked(fs);
  }

  lemma BuiltBegins(cmd: string, source: nat, target: nat, fs: seq<Feature>, args: seq<string>)
    requires |cmd| == 4 && cmd[0] in "IHBFDE" && source < SID_LIMIT && target < SID_LIMIT
    requires AllFeatures(fs) && (cmd[0] == 'F' ==> fs != [])
    ensures var line := Whole(HeadText(cmd, source, target, fs), args);
            line[..4] == cmd && Begins(line, source, target, fs)
  {
    hide ToText, Join, Marked;
    var head := HeadText(cmd, source, target, fs);
    var line := Whole(head, args);
    HeadParts(cmd, source, target, fs);
    BehindHead(head, args);
    assert line[..4] == line[..|head|][..4];
    assert cmd[0] == 'F' ==> line[..9] == line[..|head|][..9] && line[10..|head|] == line[..|head|][10..];
  }

  lemma BehindHead(head: string, args: seq<string>)
    ensures var line := Whole(head, args);
            |head| < |line| && line[..|head|] == head && (line[|head|] == ' ' || line[|head|] == '\n')
  {}

  lemma BuiltIsGood(cmd: string, source: nat, target: nat, fs: seq<Feature>, args: seq<string>)
    requires |cmd| == 4 && Good(cmd) && source < SID_LIMIT && target < SID_LIMIT && GoodFeatures(fs) && AllGood(args)
    ensures Good(Whole(HeadText(cmd, source, target, fs), args))
  {
    hide Good, HeadText;
    var head := HeadText(cmd, source, target, fs);
    GoodHead(cmd, source, target, fs);
    GoodJoin(args);
    GoodChar('\n');
    GoodConcat(head, Join(args));
    GoodConcat(head + Join(args), ['\n']);
  }

  /** Parsing what was built from a command, identifiers, features and arguments restores all of them. */
  lemma ParseUndoesConstruct(cmd: string, source: nat, target: nat, fs: seq<Feature>, args: seq<string>)
    requires |cmd| == 4 && cmd[0] in "IHBFDE" && Clean(cmd) && Good(cmd)
    requires source < SID_LIMIT && target < SID_LIMIT && AllClean(args) && AllGood(args)
    requires GoodFeatures(fs) && (cmd[0] == 'F' ==> fs != [])
    ensures var line := Whole(HeadText(cmd, source, target, fs), args);
            && Regular(line) && Ended(line) == line && line[..4] == cmd
            && EnvelopeOf(line).value == EnvelopeFor(cmd, source, target, fs)
            && HeadOf(line) == HeadText(cmd, source, target, fs) && Split(BodyOf(line)) == args
  {
    hide Good, HeadText, EnvelopeOf, ToText, Marked, Begins;
    var head := HeadText(cmd, source, target, fs);
    var line := Whole(head, args);
    BuiltIsGood(cmd, source, target, fs, args);
    BuiltBegins(cmd, source, target, fs, args);
    BeginsMeans(line, source, target, fs);
    HeadIsClean(cmd, source, target, fs);
    JoinHasNoNewline(args);
    SplitJoin(args);
    Placed(head, Join(args), line);
  }

  lemma Placed(head: string, body: string, line: string)
    requires line == head + body + ['\n'] && Start(head) && Body(body)
    ensures line[..|head|] == head && line[|head|..|line| - 1] == body && line[..|line| - 1] == head + body
    ensures line[|head| - 1] != ' ' && (line[|head|] == ' ' || line[|head|] == '\n')
  {}
}
