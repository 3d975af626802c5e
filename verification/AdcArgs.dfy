/** The argument part of an ADC message as a list of arguments, and what searching the raw text finds in it. */
module AdcArgs {
  import opened Sequences
  import opened Options

  /** Text that can stand as one argument. */
  predicate Clean(s: string) {
    ' ' !in s && '\n' !in s && '\0' !in s
  }

  /** The two characters an argument is named by. */
  type Name = p: string | |p| == 2 && Clean(p) witness "NI"

  predicate AllClean(args: seq<string>) {
    forall i :: 0 <= i < |args| ==> Clean(args[i])
  }

  // ----- Text and arguments

  /** The text of a list of arguments: each follows a space. */
  function Join(args: seq<string>): string {
    if args == [] then [] else [' '] + args[0] + Join(args[1..])
  }

  /** Text that starts an argument or is empty. */
  predicate Body(s: string) {
    s == [] || s[0] == ' '
  }

  /** The first position of a space, or the length. */
  function NextSpace(s: string): (i: nat)
    ensures i <= |s| && ' ' !in s[..i] && (i < |s| ==> s[i] == ' ')
  {
    if s == [] || s[0] == ' ' then 0
    else
      assert s[..1 + NextSpace(s[1..])] == [s[0]] + s[1..][..NextSpace(s[1..])];
      1 + NextSpace(s[1..])
  }

  /** The arguments of a text. */
  function Split(s: string): seq<string>
    requires Body(s)
    decreases |s|
  {
    if s == [] then []
    else
      var j := 1 + NextSpace(s[1..]);
      [s[1..j]] + Split(s[j..])
  }

  lemma {:induction false} JoinAppend(a: seq<string>, b: seq<string>)
    ensures Join(a + b) == Join(a) + Join(b)
  {
    if a == [] {
      assert a + b == b;
    } else {
      assert (a + b)[1..] == a[1..] + b;
      JoinAppend(a[1..], b);
      Assemble([' '] + a[0], Join(a[1..]), Join(b));
    }
  }

  /** The first space after a space-free start. */
  lemma {:induction false} SpaceAfter(u: string, rest: string)
    requires ' ' !in u && Body(rest)
    ensures NextSpace(u + rest) == |u|
  {
    if u == [] {
      assert u + rest == rest;
    } else {
      assert (u + rest)[1..] == u[1..] + rest;
      SpaceAfter(u[1..], rest);
    }
  }

  lemma Detach(s: string, arg: string, rest: string)
    requires s == [' '] + arg + rest
    ensures s[1..] == arg + rest && s[1..1 + |arg|] == arg && s[1 + |arg|..] == rest
  {}

  /** Splitting undoes joining. */
  lemma {:induction false} SplitJoin(args: seq<string>)
    requires AllClean(args)
    ensures Body(Join(args)) && Split(Join(args)) == args
  {
    if args != [] {
      var s, rest := Join(args), Join(args[1..]);
      SplitJoin(args[1..]);
      Detach(s, args[0], rest);
      SpaceAfter(args[0], rest);
    }
  }

  lemma JoinFirst(arg: string, rest: seq<string>)
    ensures Join([arg] + rest) == [' '] + arg + Join(rest)
  {
    assert ([arg] + rest)[1..] == rest;
  }

  lemma Reattach(s: string, j: nat)
    requires 1 <= j <= |s| && s[0] == ' '
    ensures [' '] + s[1..j] + s[j..] == s
  {}

  /** Joining undoes splitting. */
  lemma {:induction false} JoinSplit(s: string)
    requires Body(s)
    ensures Join(Split(s)) == s
    decreases |s|
  {
    if s != [] {
      var j := 1 + NextSpace(s[1..]);
      JoinSplit(s[j..]);
      JoinFirst(s[1..j], Split(s[j..]));
      Reattach(s, j);
    }
  }

  /** The parts of newline-free text are clean. */
  lemma {:induction false} SplitIsClean(s: string)
    requires Body(s) && '\n' !in s && '\0' !in s
    ensures AllClean(Split(s))
    decreases |s|
  {
    if s != [] {
      var j := 1 + NextSpace(s[1..]);
      SplitIsClean(s[j..]);
      assert s[1..][..j - 1] == s[1..j];
    }
  }

  // ----- The arguments of a name

  predicate Named(arg: string, p: Name) {
    |arg| >= 2 && arg[..2] == p
  }

  /** The arguments that do not carry the name, in order. */
  function Without(args: seq<string>, p: Name): seq<string> {
    if args == [] then []
    else if Named(args[0], p) then Without(args[1..], p)
    else [args[0]] + Without(args[1..], p)
  }

  function Count(args: seq<string>, p: Name): nat {
    if args == [] then 0 else (if Named(args[0], p) then 1 else 0) + Count(args[1..], p)
  }

  /** The first argument of the name, or the number of arguments. */
  function First(args: seq<string>, p: Name): (k: nat)
    ensures k <= |args| && (k < |args| ==> Named(args[k], p))
  {
    if args == [] || Named(args[0], p) then 0 else 1 + First(args[1..], p)
  }

  lemma {:induction false} NoneLeft(args: seq<string>, p: Name)
    ensures First(args, p) == |args| <==> Count(args, p) == 0
    ensures First(args, p) == |args| ==> Without(args, p) == args
  {
    if args != [] {
      NoneLeft(args[1..], p);
    }
  }

  /** Taking out the first argument of a name. */
  lemma {:induction false} DropFirst(args: seq<string>, p: Name)
    requires First(args, p) < |args|
    ensures var k := First(args, p);
            var rest := args[..k] + args[k + 1..];
            Without(rest, p) == Without(args, p) && Count(rest, p) + 1 == Count(args, p)
  {
    var k := First(args, p);
    if k == 0 {
      assert args[..k] + args[k + 1..] == args[1..];
    } else {
      var more := args[1..];
      DropFirst(more, p);
      var rest := args[..k] + args[k + 1..];
      assert rest[1..] == more[..k - 1] + more[k..];
    }
  }

  /** What is left has no argument of the name and keeps every other one with its multiplicity and order. */
  lemma {:induction false} WithoutIsFilter(args: seq<string>, p: Name, q: Name)
    ensures AllClean(args) ==> AllClean(Without(args, p))
    ensures Count(Without(args, p), q) == if q == p then 0 else Count(args, q)
    ensures q != p ==> Pick(Without(args, p), q) == Pick(args, q)
  {
    if args != [] {
      WithoutIsFilter(args[1..], p, q);
      var w := Without(args, p);
      if !Named(args[0], p) {
        assert w[1..] == Without(args[1..], p);
      }
    }
  }

  /** The arguments of a name, in order. */
  function Pick(args: seq<string>, q: Name): (r: seq<string>)
    ensures |r| == Count(args, q) && forall i :: 0 <= i < |r| ==> Named(r[i], q)
  {
    if args == [] then []
    else if Named(args[0], q) then [args[0]] + Pick(args[1..], q)
    else Pick(args[1..], q)
  }

  lemma {:induction false} PickAppend(a: seq<string>, b: seq<string>, q: Name)
    ensures Pick(a + b, q) == Pick(a, q) + Pick(b, q)
  {
    if a == [] {
      assert a + b == b;
    } else {
      assert (a + b)[1..] == a[1..] + b;
      PickAppend(a[1..], b, q);
    }
  }

  /** The value of the first argument of a name. */
  function Lookup(args: seq<string>, p: Name): Option<string> {
    if First(args, p) < |args| then Some(args[First(args, p)][2..]) else None
  }

  lemma {:induction false} LookupIsPick(args: seq<string>, p: Name)
    ensures Lookup(args, p) == if Pick(args, p) == [] then None else Some(Pick(args, p)[0][2..])
  {
    if args != [] && !Named(args[0], p) {
      LookupIsPick(args[1..], p);
    }
  }

  // ----- Searching the text

  /** A space and the name stand at `i`. */
  predicate MatchAt(s: string, p: Name, i: nat) {
    i + 3 <= |s| && s[i] == ' ' && s[i + 1] == p[0] && s[i + 2] == p[1]
  }

  /** The first match in a text, or its length. */
  function Find(s: string, p: Name): (i: nat)
    ensures i <= |s|
  {
    if s == [] || MatchAt(s, p, 0) then 0 else 1 + Find(s[1..], p)
  }

  /** A search goes past text without a space. */
  lemma {:induction false} FindPast(u: string, rest: string, p: Name)
    requires ' ' !in u
    ensures Find(u + rest, p) == |u| + Find(rest, p)
  {
    if u == [] {
      assert u + rest == rest;
    } else {
      assert (u + rest)[1..] == u[1..] + rest;
      FindPast(u[1..], rest, p);
    }
  }

  /** What can follow an argument. */
  predicate Stop(rest: string) {
    rest == [] || rest[0] == ' ' || rest[0] == '\n' || rest[0] == '\0'
  }

  lemma MatchIsName(arg: string, rest: string, p: Name)
    requires Clean(arg) && Stop(rest)
    ensures MatchAt([' '] + (arg + rest), p, 0) <==> Named(arg, p)
  {
    var s := [' '] + (arg + rest);
    if Named(arg, p) {
      assert arg[0] == arg[..2][0] && arg[1] == arg[..2][1];
    }
    if MatchAt(s, p, 0) && |arg| >= 2 {
      assert s[1] == arg[0] && s[2] == arg[1];
      assert arg[..2] == [arg[0], arg[1]];
    }
  }

  lemma FindStep(arg: string, rest: string, p: Name)
    requires Clean(arg) && Stop(rest)
    ensures Find([' '] + (arg + rest), p) == if Named(arg, p) then 0 else 1 + |arg| + Find(rest, p)
  {
    MatchIsName(arg, rest, p);
    FindPast(arg, rest, p);
    assert ([' '] + (arg + rest))[1..] == arg + rest;
  }

  /** Where a search ends: at the first argument of the name, or at the end. */
  function Spot(args: seq<string>, tail: string, p: Name): nat {
    var k := First(args, p);
    if k < |args| then |Join(args[..k])| else |Join(args)| + |tail|
  }

  lemma JoinTail(args: seq<string>, tail: string)
    requires args != []
    ensures Join(args) + tail == [' '] + (args[0] + (Join(args[1..]) + tail))
  {}

  /** The text of arguments and a stop can follow an argument. */
  lemma StopsAfter(args: seq<string>, tail: string)
    requires Stop(tail)
    ensures Stop(Join(args) + tail)
  {
    if args != [] {
      JoinTail(args, tail);
    }
  }

  lemma SpotStep(args: seq<string>, tail: string, p: Name)
    requires args != []
    ensures Spot(args, tail, p) == if Named(args[0], p) then 0 else 1 + |args[0]| + Spot(args[1..], tail, p)
  {
    hide Named;
    var k := First(args, p);
    if 0 < k < |args| {
      assert args[..k][1..] == args[1..][..k - 1];
    }
  }

  /** Searching the joined text finds the first argument of the name. */
  lemma {:induction false} FindInJoin(args: seq<string>, tail: string, p: Name)
    requires AllClean(args) && ' ' !in tail && Stop(tail)
    ensures Find(Join(args) + tail, p) == Spot(args, tail, p)
  {
    hide Named, MatchAt, Stop, Clean, Find;
    if args == [] {
      FindPast(tail, [], p);
      FindNothing(p);
      assert Join(args) + tail == tail && tail + [] == tail;
    } else {
      hide Join, Spot;
      JoinTail(args, tail);
      StopsAfter(args[1..], tail);
      FindStep(args[0], Join(args[1..]) + tail, p);
      FindInJoin(args[1..], tail, p);
      SpotStep(args, tail, p);
    }
  }

  lemma FindNothing(p: Name)
    ensures Find([], p) == 0
  {}

  lemma Past(front: string, arg: string, rest: string, text: string)
    requires text == front + ([' '] + arg + rest)
    ensures text[|front| + 1..] == arg + rest
    ensures text[..|front|] == front && text[|front| + 1 + |arg|..] == rest
  {}

  /** The text of a list around one of its arguments. */
  lemma AroundArgument(head: string, args: seq<string>, k: nat)
    requires k < |args|
    ensures head + Join(args) == (head + Join(args[..k])) + ([' '] + args[k] + Join(args[k + 1..]))
  {
    var a, b := args[..k], args[k..];
    assert args == a + b;
    JoinAppend(a, b);
    assert b[1..] == args[k + 1..];
    Assemble(head, Join(a), Join(b));
  }

  lemma ArgumentIsOneWord(args: seq<string>, k: nat)
    requires AllClean(args) && k < |args|
    ensures ' ' !in args[k] && Body(Join(args[k + 1..]))
  {
    assert Clean(args[k]);
  }

  /** Cutting the text of one argument out of a text cuts that argument out of the list. */
  lemma CutArgument(head: string, args: seq<string>, k: nat, text: string, start: nat, end: nat)
    requires AllClean(args) && k < |args| && text == head + Join(args) && start == |head| + |Join(args[..k])|
    requires start < |text| && end == start + 1 + NextSpace(text[start + 1..])
    ensures end == start + 1 + |args[k]|
    ensures text[..start] + text[end..] == head + Join(args[..k] + args[k + 1..])
  {
    hide Join, NextSpace, Body, Clean;
    var front, rest := head + Join(args[..k]), Join(args[k + 1..]);
    AroundArgument(head, args, k);
    Past(front, args[k], rest, text);
    ArgumentIsOneWord(args, k);
    SpaceAfter(args[k], rest);
    JoinAppend(args[..k], args[k + 1..]);
    Assemble(head, Join(args[..k]), rest);
  }
}
