/** An ADC message edited in place: the growing buffer and the argument operations of `src/adc/message.c`. */
module AdcMessage {
  import opened Sequences
  import opened Options
  import opened AdcArgs
  import opened AdcEscape

  /** Where the arguments start, by the first character of the command; -1 for a command that has no such place. */
  function ArgOffset(kind: char, features: nat): int {
    match kind
    case 'U' => 4
    case 'C' => 4
    case 'I' => 4
    case 'H' => 4
    case 'B' => 9
    case 'F' => 10 + features * 5
    case 'D' => 14
    case 'E' => 14
    case _ => -1
  }

  /** A buffer size with room for the terminators, a multiple of eight. */
  function Rounded(size: nat): (n: nat)
    ensures size + 2 <= n < size + 10 && n % 8 == 0
  {
    size + 2 + (8 - (size + 2) % 8) % 8
  }

  /** The text of a complete message. */
  function Whole(head: string, args: seq<string>): string {
    head + Join(args) + ['\n']
  }

  /** A line with its newline. */
  function Ended(line: string): string
    requires line != []
  {
    if line[|line| - 1] == '\n' then line else line + ['\n']
  }

  /** The start of a message ends in neither a space nor a newline. */
  predicate Start(head: string) {
    head != [] && head[|head| - 1] != ' ' && head[|head| - 1] != '\n'
  }

  /** A message without its newline does not end in one. */
  lemma LastIsNoNewline(head: string, args: seq<string>)
    requires Start(head) && AllClean(args)
    ensures var text := head + Join(args); text[|text| - 1] != '\n'
  {
    if args != [] {
      var k := |args| - 1;
      AroundArgument(head, args, k);
      assert args[k + 1..] == [];
      var last := [' '] + args[k] + Join(args[k + 1..]);
      assert last == [' '] + args[k];
      assert last[|last| - 1] == if args[k] == [] then ' ' else args[k][|args[k]| - 1];
    }
  }

  /** The start and the arguments of a message are determined by its text and the length of its start. */
  lemma PartsAreUnique(head: string, args: seq<string>, h: string, a: seq<string>)
    requires AllClean(args) && AllClean(a) && |h| == |head| && Whole(head, args) == Whole(h, a)
    ensures h == head && a == args
  {
    var text := Whole(head, args);
    assert text[..|head|] == head && text[..|head|] == h;
    assert text[|head|..|text| - 1] == Join(args) && text[|head|..|text| - 1] == Join(a);
    SplitJoin(args);
    SplitJoin(a);
  }

  lemma SpotInside(args: seq<string>, p: Name)
    ensures Spot(args, [], p) < |Join(args)| <==> First(args, p) < |args|
  {
    var k := First(args, p);
    if k < |args| {
      AroundArgument([], args, k);
    }
  }

  // ----- What a search stops at

  lemma AfterSpot(todo: seq<string>, tail: string, p: Name)
    requires First(todo, p) < |todo|
    ensures Spot(todo, tail, p) <= |Join(todo)|
    ensures (Join(todo) + tail)[Spot(todo, tail, p)..] == Join(todo[First(todo, p)..]) + tail
  {
    var k := First(todo, p);
    assert todo == todo[..k] + todo[k..];
    JoinAppend(todo[..k], todo[k..]);
    Assemble(Join(todo[..k]), Join(todo[k..]), tail);
  }

  /** A search that starts inside an argument goes on to the next argument of the name. */
  lemma SearchOn(s: string, arg: string, todo: seq<string>, tail: string, p: Name)
    requires s == arg + (Join(todo) + tail) && ' ' !in arg && AllClean(todo) && ' ' !in tail && Stop(tail)
    ensures Find(s, p) == |arg| + Spot(todo, tail, p)
    ensures Find(s, p) < |s| <==> First(todo, p) < |todo|
    ensures First(todo, p) < |todo| ==> s[Find(s, p)..] == Join(todo[First(todo, p)..]) + tail
  {
    FindPast(arg, Join(todo) + tail, p);
    FindInJoin(todo, tail, p);
    if First(todo, p) < |todo| {
      AfterSpot(todo, tail, p);
      SpotInside(todo, p);
      assert s[|arg| + Spot(todo, tail, p)..] == (Join(todo) + tail)[Spot(todo, tail, p)..];
    }
  }

  lemma StopIsTerminator()
    ensures Stop(['\n', '\0'])
  {}

  /** The text behind the space of an argument, with the terminator. */
  lemma BehindSpace(here: seq<string>, s: string)
    requires here != [] && s == (Join(here) + ['\n'])[1..] + ['\0']
    ensures s == here[0] + (Join(here[1..]) + ['\n', '\0'])
  {}

  lemma {:induction false} CountFrom(todo: seq<string>, p: Name)
    ensures Count(todo, p) == if First(todo, p) < |todo| then 1 + Count(todo[First(todo, p) + 1..], p) else 0
  {
    if todo != [] && !Named(todo[0], p) {
      CountFrom(todo[1..], p);
      var k := First(todo, p);
      if k < |todo| {
        assert todo[1..][k..] == todo[k + 1..];
      }
    }
  }

  lemma {:induction false} NoSpace(s: string)
    requires ' ' !in s
    ensures NextSpace(s) == |s|
  {
    if s != [] {
      NoSpace(s[1..]);
    }
  }

  /** Where the value of an argument ends: at the next argument or with the newline. */
  lemma ValueEnds(s: string, arg: string, more: seq<string>)
    requires s == Join([arg] + more) + ['\n'] && Clean(arg) && |arg| >= 2
    ensures |s| > 3 && NextSpace(s[3..]) == |arg| - 2 + if more == [] then 1 else 0
    ensures s[3..][..NextSpace(s[3..])] == arg[2..] + if more == [] then ['\n'] else []
  {
    var u, rest := arg[2..], Join(more) + ['\n'];
    assert ([arg] + more)[1..] == more;
    assert s == [' '] + arg + rest;
    assert s[3..] == u + rest;
    if more == [] {
      assert rest == ['\n'];
      NoSpace(u + rest);
    } else {
      SpaceAfter(u, rest);
    }
  }

  lemma JoinUpTo(args: seq<string>, k: nat)
    requires k < |args|
    ensures |Join(args[..k + 1])| == |Join(args[..k])| + 1 + |args[k]|
    ensures |Join(args)| == |Join(args[..k + 1])| + |Join(args[k + 1..])|
  {
    var one := [args[k]];
    assert args[..k + 1] == args[..k] + one;
    JoinAppend(args[..k], one);
    assert Join(one) == [' '] + args[k] + Join([]);
    assert args == args[..k + 1] + args[k + 1..];
    JoinAppend(args[..k + 1], args[k + 1..]);
  }

  lemma NothingJoined(args: seq<string>)
    ensures Join(args) == [] <==> args == []
  {}

  /** The text between two spaces is an argument. */
  lemma ArgumentSlice(head: string, args: seq<string>, k: nat, text: string, start: nat, end: nat)
    requires AllClean(args) && k < |args| && text == head + Join(args) && start == |head| + |Join(args[..k])|
    requires start < |text| && end == start + 1 + NextSpace(text[start + 1..])
    ensures end == |head| + |Join(args[..k + 1])| <= |text| && text[start + 1..end] == args[k]
    ensures end < |text| <==> k + 1 < |args|
  {
    hide Join, NextSpace, Body, Clean;
    var rest := Join(args[k + 1..]);
    AroundArgument(head, args, k);
    Past(head + Join(args[..k]), args[k], rest, text);
    ArgumentIsOneWord(args, k);
    SpaceAfter(args[k], rest);
    JoinUpTo(args, k);
    NothingJoined(args[k + 1..]);
    assert text[start + 1..end] == text[start + 1..][..|args[k]|];
  }

  lemma Regroup4(a: string, b: string, c: string, d: string)
    ensures a + b + c + d == a + (b + (c + d))
  {}

  /** What a reader of arguments gets at an index. */
  function ArgumentAt(args: seq<string>, index: nat): Option<string> {
    if index < |args| && args[index] != [] then Some(args[index]) else None
  }

  /** Clean text comes to one argument. */
  lemma OneArgument(arg: string)
    requires Clean(arg)
    ensures Split([' '] + arg) == [arg]
  {
    JoinFirst(arg, []);
    assert [arg] + [] == [arg];
    SplitJoin([arg]);
    assert Join([arg]) == [' '] + arg;
  }

  /** Text stored under a fresh name is read back and unescapes to what it was. */
  lemma ReadBack(args: seq<string>, p: Name, s: string)
    requires Count(args, p) == 0
    ensures Lookup(args + [p + Escaped(s)], p) == Some(Escaped(s)) && Unescaped(Escaped(s)) == s
  {
    var arg := p + Escaped(s);
    PickAppend(args, [arg], p);
    assert Named(arg, p) && arg[2..] == Escaped(s);
    LookupIsPick(args + [arg], p);
    UnescapeEscape(s);
  }

  class Message {
    var cache: array<char>
    var length: nat
    var command: string
    var source: nat
    var target: nat
    var wanted: seq<string>
    var unwanted: seq<string>
    ghost var head: string
    ghost var args: seq<string>

    function Text(): string
      requires length <= cache.Length
      reads this`length, this`cache, cache
    {
      cache[..length]
    }

    /** The buffer is larger than the text, which ends at its first terminator. */
    ghost predicate Sound()
      reads this`length, this`cache, cache
    {
      length < cache.Length && cache[length] == '\0' && '\0' !in Text()
    }

    /** The text is the start of the message and its arguments. */
    ghost predicate Bare()
      reads this`length, this`cache, this`head, this`args, cache
    {
      Sound() && Text() == head + Join(args) && AllClean(args) && Start(head)
    }

    /** The same with the final newline. */
    ghost predicate Valid()
      reads this`length, this`cache, this`head, this`args, cache
    {
      Sound() && Text() == Whole(head, args) && AllClean(args) && Start(head)
    }

    function Offset(): int
      requires length < cache.Length
      reads this, cache
    {
      ArgOffset(cache[0], |wanted| + |unwanted|)
    }

    /** The start of the message is complete, so that the arguments begin where the code looks for them. */
    ghost predicate Ready()
      reads this, cache
    {
      Valid() && Offset() == |head|
    }

    // ----- Making messages

    /** A message that is only a command, or has no text at all for the command code 0, which is written as the empty string. */
    constructor Construct(fourcc: string, size: nat)
      requires fourcc == [] || (|fourcc| == 4 && Start(fourcc) && '\0' !in fourcc)
      ensures fresh(cache) && Sound() && head == fourcc && args == []
      ensures if fourcc == [] then Text() == [] else Valid()
      ensures command == fourcc && source == 0 && target == 0 && wanted == [] && unwanted == []
      ensures cache.Length > 4 + size + 1
    {
      command, source, target, wanted, unwanted := fourcc, 0, 0, [], [];
      cache := new char[Rounded(4 + size + 1)](i => '\0');
      length := 0;
      head, args := fourcc, [];
      new;
      if fourcc != [] {
        forall i | 0 <= i < 4 { cache[i] := fourcc[i]; }
        cache[4] := '\n';
        length := 5;
        cache[length] := '\0';
        assert Text() == fourcc + [] + ['\n'];
      }
    }

    /** A message from a line, which gets a newline if it has none. */
    constructor Receive(line: string, command: string, source: nat, target: nat, wanted: seq<string>, unwanted: seq<string>,
                        ghost head: string, ghost args: seq<string>)
      requires line != [] && '\0' !in line
      ensures fresh(cache) && Sound() && Text() == Ended(line)
      ensures this.command == command && this.source == source && this.target == target
      ensures this.wanted == wanted && this.unwanted == unwanted && this.head == head && this.args == args
    {
      this.command, this.source, this.target, this.wanted, this.unwanted := command, source, target, wanted, unwanted;
      this.head, this.args := head, args;
      var need := if line[|line| - 1] != '\n' then 1 else 0;
      cache := new char[Rounded(|line| + need)](i => '\0');
      length := |line| + need;
      new;
      forall i | 0 <= i < |line| { cache[i] := line[i]; }
      cache[|line|] := '\0';
      cache[length] := '\0';
      if need == 1 {
        cache[|line|] := '\n';
      }
      assert Text() == Ended(line);
    }

    /** A copy with a buffer of its own. */
    constructor Copy(cmd: Message)
      requires cmd.Sound()
      ensures fresh(cache) && Sound() && Text() == cmd.Text() && head == cmd.head && args == cmd.args
      ensures command == cmd.command && source == cmd.source && target == cmd.target
      ensures wanted == cmd.wanted && unwanted == cmd.unwanted
    {
      command, source, target, wanted, unwanted := cmd.command, cmd.source, cmd.target, cmd.wanted, cmd.unwanted;
      head, args := cmd.head, cmd.args;
      cache := new char[Rounded(cmd.length)](i => '\0');
      length := cmd.length;
      new;
      forall i | 0 <= i < length { cache[i] := cmd.cache[i]; }
      cache[length] := '\0';
      assert Text() == cmd.Text();
    }

    // ----- The buffer

    method Grow(size: nat)
      requires length <= cache.Length
      modifies this`cache
      ensures cache.Length > size && (cache == old(cache) || fresh(cache))
      ensures length <= cache.Length && Text() == old(Text())
    {
      if cache.Length > size {
        return;
      }
      var buf := new char[Rounded(size)](i => '\0');
      forall i | 0 <= i < length { buf[i] := cache[i]; }
      assert buf[..length] == cache[..length];
      cache := buf;
    }

    method Append(s: string)
      requires length <= cache.Length && '\0' !in s && '\0' !in Text()
      modifies this`cache, this`length, cache
      ensures cache == old(cache) || fresh(cache)
      ensures Sound() && Text() == old(Text()) + s
    {
      Grow(length + |s|);
      ghost var was := Text();
      forall i | 0 <= i < |s| { cache[length + i] := s[i]; }
      length := length + |s|;
      assert cache[..length] == was + s;
      cache[length] := '\0';
      assert cache[..length] == was + s;
    }

    method Terminate()
      requires Sound()
      modifies this`cache, this`length, cache
      ensures cache == old(cache) || fresh(cache)
      ensures Sound()
      ensures Text() == old(if length > 0 && cache[length - 1] == '\n' then Text() else Text() + ['\n'])
    {
      if length < 1 || cache[length - 1] != '\n' {
        Append(['\n']);
      }
    }

    method Unterminate()
      requires Sound()
      modifies this`length, cache
      ensures Sound()
      ensures Text() == old(if length > 0 && cache[length - 1] == '\n' then Text()[..length - 1] else Text())
    {
      if length > 0 && cache[length - 1] == '\n' {
        length := length - 1;
        cache[length] := '\0';
      }
    }

    method Open()
      requires Valid()
      modifies this`length, cache
      ensures Bare()
    {
      ghost var text := Text();
      assert text[|text| - 1] == '\n' && text[..|text| - 1] == head + Join(args);
      Unterminate();
    }

    method Close()
      requires Bare()
      modifies this`cache, this`length, cache
      ensures cache == old(cache) || fresh(cache)
      ensures Valid()
    {
      ghost var text := Text();
      LastIsNoNewline(head, args);
      assert cache[length - 1] == text[|text| - 1];
      Terminate();
    }

    // ----- Searching

    /** The first place in part of the buffer where a space and the name stand. */
    method Search(from: nat, to: nat, p: Name) returns (at: nat)
      requires from <= to <= cache.Length
      ensures at == from + Find(cache[from..to], p)
    {
      at := from;
      while at < to && !(at + 3 <= to && cache[at] == ' ' && cache[at + 1] == p[0] && cache[at + 2] == p[1])
        invariant from <= at <= to
        invariant from + Find(cache[from..to], p) == at + Find(cache[at..to], p)
      {
        assert cache[at..to][1..] == cache[at + 1..to];
        at := at + 1;
      }
      assert at < to ==> MatchAt(cache[at..to], p, 0);
    }

    /** The next space, or the end of the text. */
    method Space(from: nat) returns (at: nat)
      requires Sound() && from <= length
      ensures at == from + NextSpace(cache[from..length])
    {
      at := from;
      while at < length && cache[at] != ' '
        invariant from <= at <= length
        invariant from + NextSpace(cache[from..length]) == at + NextSpace(cache[at..length])
      {
        assert cache[at..length][1..] == cache[at + 1..length];
        at := at + 1;
      }
    }

    // ----- Named arguments

    /** Cuts the text between `start` and `end`, either by moving the rest or at the end of the text. */
    method Cut(start: nat, end: nat)
      requires Sound() && start < end <= length
      modifies this`length, cache
      ensures Sound() && Text() == old(Text()[..start] + Text()[end..])
    {
      ghost var was := Text();
      if end < length {
        var n := length - end;
        forall i | 0 <= i < n { cache[start + i] := cache[end + i]; }
        length := start + n;
        cache[length] := '\0';
      } else {
        length := start;
        cache[start] := '\0';
      }
      assert cache[..length] == was[..start] + was[end..];
    }

    /** Cuts out the first argument of a name, which starts at `start`. */
    method RemoveAt(start: nat, p: Name)
      requires Bare() && First(args, p) < |args| && start == |head| + |Join(args[..First(args, p)])| < length
      modifies this`length, this`args, cache
      ensures Bare() && |args| < |old(args)|
      ensures Without(args, p) == Without(old(args), p) && Count(args, p) + 1 == Count(old(args), p)
    {
      hide Join, Count, Without, First, NextSpace;
      ghost var k, text := First(args, p), Text();
      assert text[start + 1..] == cache[start + 1..length];
      var end := Space(start + 1);
      CutArgument(head, args, k, text, start, end);
      DropFirst(args, p);
      Cut(start, end);
      args := args[..k] + args[k + 1..];
    }

    /** The search through all arguments. */
    method FindNamed(offset: nat, p: Name) returns (start: nat)
      requires Bare() && offset == |head|
      ensures start == |head| + Spot(args, [], p)
      ensures start < length <==> First(args, p) < |args|
    {
      start := Search(offset, length, p);
      assert cache[offset..length] == Text()[|head|..] == Join(args);
      assert Join(args) + [] == Join(args);
      FindInJoin(args, [], p);
      SpotInside(args, p);
    }

    lemma ArgsAreClean()
      requires Valid()
      ensures AllClean(args)
    {}

    /** The first character of the text is that of the start. */
    lemma StartsText()
      requires Valid()
      ensures Offset() == ArgOffset(head[0], |wanted| + |unwanted|)
    {
      assert Text()[0] == head[0];
    }

    /** The loop that deletes one argument after the other. */
    method RemoveAll(offset: nat, p: Name) returns (found: nat)
      requires Bare() && offset == |head|
      modifies this`length, this`args, cache
      ensures Bare() && args == Without(old(args), p) && found == Count(old(args), p)
    {
      found := 0;
      var start := FindNamed(offset, p);
      while start < length
        invariant Bare()
        invariant start == |head| + Spot(args, [], p)
        invariant start < length <==> First(args, p) < |args|
        invariant Without(args, p) == Without(old(args), p)
        invariant found + Count(args, p) == Count(old(args), p)
        decreases |args|
      {
        RemoveAt(start, p);
        found := found + 1;
        start := FindNamed(offset, p);
      }
      NoneLeft(args, p);
    }

    /** Deletes every argument of the name and says how many there were. */
    method RemoveNamed(p: Name) returns (found: nat)
      requires Ready()
      modifies this`cache, this`length, this`args, cache
      ensures cache == old(cache) || fresh(cache)
      ensures Ready() && args == Without(old(args), p) && found == Count(old(args), p)
    {
      StartsText();
      var offset := Offset();
      Open();
      found := RemoveAll(offset, p);
      Close();
      StartsText();
    }

    /** A search among the arguments `todo` has stopped at `start`: at the first of the name, or past them all. */
    ghost predicate Stopped(found: bool, start: int, todo: seq<string>, p: Name)
      requires length <= cache.Length
      reads this, cache
    {
      && AllClean(todo)
      && (found <==> First(todo, p) < |todo|)
      && (found ==> 0 <= start < length && cache[start..length] == Join(todo[First(todo, p)..]) + ['\n'])
    }

    method SearchFirst(p: Name) returns (found: bool, start: nat)
      requires Ready()
      ensures Stopped(found, start, args, p)
    {
      var offset := Offset();
      start := Search(offset, length, p);
      found := start < length;
      Tail(offset);
      SearchOn(cache[offset..length], [], args, ['\n'], p);
    }

    /** The search behind one match, which also looks at the terminator. */
    method SearchNext(start: nat, p: Name, ghost todo: seq<string>) returns (found: bool, next: nat, ghost rest: seq<string>)
      requires Sound() && Stopped(true, start, todo, p)
      ensures Stopped(found, next, rest, p)
      ensures rest == todo[First(todo, p) + 1..] && Count(todo, p) == 1 + Count(rest, p)
    {
      hide Join, Find, Count, First, Spot, Stop;
      ghost var here := todo[First(todo, p)..];
      rest := todo[First(todo, p) + 1..];
      assert here[1..] == rest;
      CountFrom(todo, p);
      next := Search(start + 1, length + 1, p);
      ghost var s := cache[start + 1..length + 1];
      assert s == cache[start..length][1..] + ['\0'];
      BehindSpace(here, s);
      assert ' ' !in here[0] by { assert Clean(here[0]); }
      StopIsTerminator();
      SearchOn(s, here[0], rest, ['\n', '\0'], p);
      found := next < length + 1;
      if found {
        ghost var end := cache[next..length + 1];
        assert end == s[next - (start + 1)..];
        assert end[..|end| - 1] == Join(rest[First(rest, p)..]) + ['\n'];
        assert cache[next..length] == end[..|end| - 1];
      }
    }

    /** How many arguments carry the name. */
    method HasNamed(p: Name) returns (count: nat)
      requires Ready()
      ensures count == Count(args, p)
    {
      count := 0;
      var found, start := SearchFirst(p);
      ghost var todo := args;
      while found
        invariant Stopped(found, start, todo, p)
        invariant count + Count(todo, p) == Count(args, p)
        decreases |todo|
      {
        count := count + 1;
        found, start, todo := SearchNext(start, p, todo);
      }
      NoneLeft(todo, p);
    }

    /** The arguments and the newline. */
    lemma Tail(offset: nat)
      requires Ready() && offset == Offset()
      ensures offset <= length && cache[offset..length] == [] + (Join(args) + ['\n'])
    {
      assert Text()[|head|..] == Join(args) + ['\n'];
    }

    /** The text of an argument behind its name. */
    method ReadValue(start: nat, ghost arg: string, ghost more: seq<string>) returns (argument: string)
      requires Sound() && start + 3 <= length && Clean(arg) && |arg| >= 2
      requires cache[start..length] == Join([arg] + more) + ['\n']
      ensures argument == arg[2..]
    {
      ghost var s := cache[start..length];
      ValueEnds(s, arg, more);
      assert cache[start + 3..length] == s[3..];
      var end := Space(start + 3);
      argument := cache[start + 3..end];
      assert argument == cache[start + 3..length][..end - (start + 3)];
      if |argument| > 0 && argument[|argument| - 1] == '\n' {
        argument := argument[..|argument| - 1];
      }
    }

    /** The value of the first argument of the name. */
    method GetNamed(p: Name) returns (value: Option<string>)
      requires Ready()
      ensures value == Lookup(args, p)
    {
      var found, start := SearchFirst(p);
      if !found {
        return None;
      }
      ghost var k := First(args, p);
      assert args[k..] == [args[k]] + args[k + 1..];
      AroundArgument([], args[k..], 0);
      var argument := ReadValue(start, args[k], args[k + 1..]);
      return Some(argument);
    }

    /** Appends an argument of a name; text with spaces in it comes to several arguments. */
    method AddNamed(p: Name, s: string)
      requires Valid() && '\n' !in s && '\0' !in s
      modifies this`cache, this`length, this`args, cache
      ensures cache == old(cache) || fresh(cache)
      ensures Valid() && args == old(args) + Split([' '] + (p + s))
    {
      hide Join, Split;
      Open();
      Append([' ']);
      Append(p);
      Append(s);
      Regroup4(head + Join(args), [' '], p, s);
      ExtendArgs([' '] + (p + s));
      Close();
    }

    /** Appends an argument of a name with any text, escaped. */
    method AddNamedString(p: Name, s: string)
      requires Valid() && '\0' !in s
      modifies this`cache, this`length, this`args, cache
      ensures cache == old(cache) || fresh(cache)
      ensures Valid() && args == old(args) + [p + Escaped(s)]
    {
      EscapedIsPlain(s);
      var escaped := Escape(s);
      assert escaped[..escaped.Length - 1] == Escaped(s);
      AddNamed(p, escaped[..escaped.Length - 1]);
      OneArgument(p + Escaped(s));
    }

    /** Appends an argument. */
    method AddArgument(s: string)
      requires Valid() && '\n' !in s && '\0' !in s
      modifies this`cache, this`length, this`args, cache
      ensures cache == old(cache) || fresh(cache)
      ensures Valid() && args == old(args) + Split([' '] + s)
    {
      Open();
      Append([' ']);
      Append(s);
      Assemble(head + Join(args), [' '], s);
      ExtendArgs([' '] + s);
      Close();
    }

    /** Counts appended text among the arguments. */
    ghost method ExtendArgs(more: string)
      requires Sound() && AllClean(args) && Start(head) && Body(more) && '\n' !in more && '\0' !in more
      requires Text() == (head + Join(args)) + more
      modifies this`args
      ensures Bare() && args == old(args) + Split(more)
    {
      JoinSplit(more);
      SplitIsClean(more);
      JoinAppend(args, Split(more));
      Assemble(head, Join(args), more);
      args := args + Split(more);
    }

    /** Leaves exactly one argument of the name, at the end. */
    method ReplaceNamed(p: Name, s: string)
      requires Ready() && '\n' !in s && '\0' !in s
      modifies this`cache, this`length, this`args, cache
      ensures cache == old(cache) || fresh(cache)
      ensures Ready() && args == Without(old(args), p) + Split([' '] + (p + s))
    {
      hide Join, Count, Without, First, Split, Message.Valid;
      var count := HasNamed(p);
      NoneLeft(args, p);
      while count > 0
        invariant Ready() && count == Count(args, p) && Without(args, p) == Without(old(args), p)
        invariant cache == old(cache) || fresh(cache)
        decreases count
      {
        WithoutIsFilter(args, p, p);
        count := RemoveNamed(p);
        NoneLeft(args, p);
        count := HasNamed(p);
      }
      NoneLeft(args, p);
      StartsText();
      AddNamed(p, s);
      StartsText();
    }

    /** Whether the message has no arguments. */
    method IsEmpty() returns (empty: bool)
      requires Ready()
      ensures empty <==> args == []
    {
      empty := length - 1 == Offset();
    }

    /** The argument at an index; an empty one counts as missing. */
    method GetArgument(index: nat) returns (value: Option<string>)
      requires Ready()
      modifies this`cache, this`length, cache
      ensures cache == old(cache) || fresh(cache)
      ensures Ready() && value == if index < |args| && args[index] != [] then Some(args[index]) else None
    {
      StartsText();
      var offset := Offset();
      Open();
      value := Walk(offset, index);
      Close();
      StartsText();
    }

    /** The walk from space to space. */
    method Walk(offset: nat, index: nat) returns (value: Option<string>)
      requires Bare() && offset == |head|
      ensures value == ArgumentAt(args, index)
    {
      var start := FirstSpace(offset);
      var count := 0;
      while start < length
        invariant 0 <= count <= |args| && start == |head| + |Join(args[..count])| <= length
        invariant start < length <==> count < |args|
        invariant count <= index || args[index] == []
        decreases |args| - count
      {
        var argument, end := ArgumentHere(start, count);
        if count == index && |argument| > 0 {
          return Some(argument);
        }
        count := count + 1;
        start := end;
      }
      return None;
    }

    method FirstSpace(offset: nat) returns (start: nat)
      requires Bare() && offset == |head|
      ensures start == |head| && (start < length <==> args != [])
    {
      start := Space(offset - 1);
      var s := cache[offset - 1..length];
      assert s == Text()[|head| - 1..];
      assert s == [head[|head| - 1]] + Join(args);
      SpaceAfter([head[|head| - 1]], Join(args));
    }

    method ArgumentHere(start: nat, ghost k: nat) returns (argument: string, end: nat)
      requires Bare() && k < |args| && start == |head| + |Join(args[..k])| < length
      ensures argument == args[k] && end == |head| + |Join(args[..k + 1])| <= length
      ensures end < length <==> k + 1 < |args|
    {
      end := Space(start + 1);
      ghost var text := Text();
      assert text[start + 1..] == cache[start + 1..length];
      ArgumentSlice(head, args, k, text, start, end);
      argument := cache[start + 1..end];
      assert argument == text[start + 1..end];
    }
  }
}
