/**
  The edit distance between option names and the search for the closest option, after `parse.c`.
 */
module Distance {
  import opened Bits
  import opened Common

  // ----- Edit distance

  function Most(s: string): string
    requires s != ""
  {
    s[..|s| - 1]
  }

  function Last(s: string): char
    requires s != ""
  {
    s[|s| - 1]
  }

  function Lev(a: string, b: string): nat
    decreases |a| + |b|
  {
    if a == "" then |b|
    else if b == "" then |a|
    else
      var sub := Lev(Most(a), Most(b)) + if Last(a) != Last(b) then 1 else 0;
      Min(Lev(Most(a), b) + 1, Min(Lev(a, Most(b)) + 1, sub))
  }

  lemma {:induction false} LevBound(a: string, b: string)
    ensures Lev(a, b) <= if |a| < |b| then |b| else |a|
    decreases |a| + |b|
  {
    if a != "" && b != "" {
      LevBound(Most(a), Most(b));
    }
  }

  lemma {:induction false} Symmetric(a: string, b: string)
    ensures Lev(a, b) == Lev(b, a)
    decreases |a| + |b|
  {
    if a != "" && b != "" {
      Symmetric(Most(a), b);
      Symmetric(a, Most(b));
      Symmetric(Most(a), Most(b));
    }
  }

  // ----- Edit scripts

  datatype Edit = Insert(at: nat, c: char) | Delete(at: nat) | Change(at: nat, c: char)

  predicate Applies(e: Edit, s: string) {
    if e.Insert? then e.at <= |s| else e.at < |s|
  }

  function Apply(e: Edit, s: string): string
    requires Applies(e, s)
  {
    match e
    case Insert(at, c) => s[..at] + [c] + s[at..]
    case Delete(at) => s[..at] + s[at + 1..]
    case Change(at, c) => s[at := c]
  }

  /** The script turns a into b. */
  predicate Turns(script: seq<Edit>, a: string, b: string) {
    if script == [] then a == b
    else Applies(script[0], a) && Turns(script[1..], Apply(script[0], a), b)
  }

  lemma SplitFirst(s: seq<Edit>, t: seq<Edit>)
    requires s != []
    ensures s + t != [] && (s + t)[0] == s[0] && (s + t)[1..] == s[1..] + t
  {
  }

  lemma {:induction false} TurnsTwice(s: seq<Edit>, t: seq<Edit>, a: string, b: string, c: string)
    requires Turns(s, a, b) && Turns(t, b, c)
    ensures Turns(s + t, a, c)
  {
    if s == [] {
      assert s + t == t;
    } else {
      TurnsTwice(s[1..], t, Apply(s[0], a), b, c);
      SplitFirst(s, t);
    }
  }

  /** What a script does is not disturbed by a character that follows. */
  lemma {:induction false} TurnsPrefix(s: seq<Edit>, a: string, b: string, c: char)
    requires Turns(s, a, b)
    ensures Turns(s, a + [c], b + [c])
  {
    if s != [] {
      assert Apply(s[0], a + [c]) == Apply(s[0], a) + [c];
      TurnsPrefix(s[1..], Apply(s[0], a), b, c);
    }
  }

  lemma TurnsOnce(e: Edit, a: string, b: string)
    requires Applies(e, a) && Apply(e, a) == b
    ensures Turns([e], a, b)
  {
    assert Turns([e][1..], b, b);
  }

  lemma TurnsFirst(e: Edit, s: seq<Edit>, a: string, b: string)
    requires Applies(e, a) && Turns(s, Apply(e, a), b)
    ensures Turns([e] + s, a, b)
  {
    TurnsOnce(e, a, Apply(e, a));
    TurnsTwice([e], s, a, Apply(e, a), b);
  }

  lemma TurnsThen(s: seq<Edit>, a: string, b: string, c: char)
    requires Turns(s, a, b)
    ensures Turns(s + [Insert(|b|, c)], a, b + [c])
  {
    TurnsOnce(Insert(|b|, c), b, b + [c]);
    TurnsTwice(s, [Insert(|b|, c)], a, b, b + [c]);
  }

  lemma DeleteLast(s: seq<Edit>, a: string, b: string)
    requires a != "" && Turns(s, Most(a), b)
    ensures Turns([Delete(|a| - 1)] + s, a, b)
  {
    assert Apply(Delete(|a| - 1), a) == Most(a);
    TurnsFirst(Delete(|a| - 1), s, a, b);
  }

  lemma InsertLast(s: seq<Edit>, a: string, b: string)
    requires b != "" && Turns(s, a, Most(b))
    ensures Turns(s + [Insert(|b| - 1, Last(b))], a, b)
  {
    assert b == Most(b) + [Last(b)];
    TurnsThen(s, a, Most(b), Last(b));
  }

  lemma KeepLast(s: seq<Edit>, a: string, b: string)
    requires a != "" && b != "" && Last(a) == Last(b) && Turns(s, Most(a), Most(b))
    ensures Turns(s, a, b)
  {
    assert a == Most(a) + [Last(a)] && b == Most(b) + [Last(b)];
    TurnsPrefix(s, Most(a), Most(b), Last(b));
  }

  lemma ChangeLast(s: seq<Edit>, a: string, b: string)
    requires a != "" && b != "" && Turns(s, Most(a), Most(b))
    ensures Turns([Change(|a| - 1, Last(b))] + s, a, b)
  {
    assert b == Most(b) + [Last(b)];
    TurnsPrefix(s, Most(a), Most(b), Last(b));
    assert Apply(Change(|a| - 1, Last(b)), a) == Most(a) + [Last(b)];
    TurnsFirst(Change(|a| - 1, Last(b)), s, a, b);
  }

  /** Some script has as many steps as the distance says. */
  lemma {:induction false} DistanceReached(a: string, b: string) returns (s: seq<Edit>)
    ensures Turns(s, a, b) && |s| == Lev(a, b)
    decreases |a| + |b|
  {
    if a == "" && b == "" {
      s := [];
    } else if b == "" || (a != "" && Lev(a, b) == Lev(Most(a), b) + 1) {
      s := DistanceReached(Most(a), b);
      DeleteLast(s, a, b);
      s := [Delete(|a| - 1)] + s;
    } else if a == "" || Lev(a, b) == Lev(a, Most(b)) + 1 {
      s := DistanceReached(a, Most(b));
      InsertLast(s, a, b);
      s := s + [Insert(|b| - 1, Last(b))];
    } else {
      s := DistanceReached(Most(a), Most(b));
      if Last(a) == Last(b) {
        KeepLast(s, a, b);
      } else {
        ChangeLast(s, a, b);
        s := [Change(|a| - 1, Last(b))] + s;
      }
    }
  }

  /** One edit brings a word closer to another by one at most. */
  lemma {:induction false} OneEdit(e: Edit, a: string, b: string)
    requires Applies(e, a)
    ensures Lev(a, b) <= 1 + Lev(Apply(e, a), b)
    decreases |a| + |b|
  {
    var x := Apply(e, a);
    if b != "" {
      OneEdit(e, a, Most(b));
      if e.at < |a| - 1 || (e.Insert? && e.at < |a|) {
        OneEditBefore(e, a);
        OneEdit(e, Most(a), b);
        OneEdit(e, Most(a), Most(b));
      } else if e.Insert? {
        assert Most(x) == a;
      } else if e.Change? {
        assert Most(x) == Most(a);
      } else {
        assert x == Most(a);
      }
    }
  }

  lemma OneEditBefore(e: Edit, a: string)
    requires Applies(e, a) && (e.at < |a| - 1 || (e.Insert? && e.at < |a|))
    ensures Applies(e, Most(a)) && Apply(e, a) != ""
    ensures Most(Apply(e, a)) == Apply(e, Most(a)) && Last(Apply(e, a)) == Last(a)
  {
  }

  /** No script is shorter than the distance. */
  lemma {:induction false} DistanceLeast(s: seq<Edit>, a: string, b: string)
    requires Turns(s, a, b)
    ensures |s| >= Lev(a, b)
  {
    if s == [] {
      ZeroToItself(a);
    } else {
      OneEdit(s[0], a, b);
      DistanceLeast(s[1..], Apply(s[0], a), b);
    }
  }

  /** The distance is the least length of a script. */
  lemma DistanceIsLeastScript(a: string, b: string, n: nat)
    ensures Lev(a, b) <= n <==> exists s :: Turns(s, a, b) && |s| <= n
  {
    var best := DistanceReached(a, b);
    forall s | Turns(s, a, b) ensures |s| >= Lev(a, b) {
      DistanceLeast(s, a, b);
    }
  }

  lemma {:induction false} ZeroToItself(a: string)
    ensures Lev(a, a) == 0
  {
    if a != "" {
      ZeroToItself(Most(a));
    }
  }

  /** The distance is a metric. */
  lemma {:induction false} ZeroIffEqual(a: string, b: string)
    ensures Lev(a, b) == 0 <==> a == b
  {
    var s := DistanceReached(a, b);
    ZeroToItself(a);
  }

  lemma Triangle(a: string, b: string, c: string)
    ensures Lev(a, c) <= Lev(a, b) + Lev(b, c)
  {
    var s := DistanceReached(a, b);
    var t := DistanceReached(b, c);
    TurnsTwice(s, t, a, b, c);
    DistanceLeast(s + t, a, c);
  }

  // ----- Two rows

  lemma FirstRow(b: string, j: nat)
    requires j <= |b|
    ensures Lev("", b[..j]) == j && Lev(b[..j], "") == j
  {
  }

  lemma NextCell(a: string, b: string, i: nat, j: nat)
    requires 0 < i <= |a| && 0 < j <= |b|
    ensures Lev(a[..i], b[..j]) == Min(Lev(a[..i - 1], b[..j]) + 1, Min(Lev(a[..i], b[..j - 1]) + 1,
              Lev(a[..i - 1], b[..j - 1]) + if a[i - 1] != b[j - 1] then 1 else 0))
  {
    assert Most(a[..i]) == a[..i - 1] && Most(b[..j]) == b[..j - 1];
  }

  /** The distances of a to the first parts of b. */
  ghost function LevRow(a: string, b: string): (r: seq<nat>)
    ensures |r| == |b| + 1
  {
    seq(|b| + 1, j requires 0 <= j <= |b| => Lev(a, b[..j]))
  }

  /** r1 is the row after r0 when c is the next character. */
  ghost predicate Follows(r0: seq<nat>, r1: seq<nat>, c: char, b: string) {
    && |r0| == |b| + 1 && |r1| == |b| + 1 && r1[0] == r0[0] + 1
    && (forall j :: 0 <= j <= |b| ==> r0[j] < 0x8000_0000 && r1[j] < 0x8000_0000)
    && (forall j :: 0 < j <= |b| ==>
          r1[j] == Min(r0[j] + 1, Min(r1[j - 1] + 1, r0[j - 1] + if c != b[j - 1] then 1 else 0)))
  }

  lemma NextRow(a: string, b: string, i: nat)
    requires 0 < i <= |a| < 0x8000_0000 && |b| < 0x8000_0000
    ensures Follows(LevRow(a[..i - 1], b), LevRow(a[..i], b), a[i - 1], b)
  {
    var r0, r1 := LevRow(a[..i - 1], b), LevRow(a[..i], b);
    FirstRow(a, i);
    FirstRow(a, i - 1);
    assert b[..0] == "";
    forall j | 0 <= j <= |b| ensures r0[j] < 0x8000_0000 && r1[j] < 0x8000_0000 {
      LevBound(a[..i - 1], b[..j]);
      LevBound(a[..i], b[..j]);
    }
    forall j | 0 < j <= |b|
      ensures r1[j] == Min(r0[j] + 1, Min(r1[j - 1] + 1, r0[j - 1] + if a[i - 1] != b[j - 1] then 1 else 0))
    {
      NextCell(a, b, i, j);
    }
  }

  /** The first n cells of the array are those of the row. */
  ghost predicate Holds(cells: array<U32>, row: seq<nat>, n: nat)
    reads cells
  {
    n <= cells.Length == |row| && forall j :: 0 <= j < n ==> cells[j] == row[j]
  }

  /** One round of the outer loop. */
  method FillRow(p: array<U32>, q: array<U32>, c: char, s2: string, ghost r0: seq<nat>, ghost r1: seq<nat>)
    requires p != q && p.Length == q.Length && Holds(p, r0, |s2| + 1) && Follows(r0, r1, c, s2)
    modifies q
    ensures Holds(q, r1, |s2| + 1)
  {
    q[0] := p[0] + 1;
    for j := 1 to |s2| + 1
      invariant Holds(p, r0, |s2| + 1) && Holds(q, r1, j)
    {
      var sub := p[j - 1];
      if c != s2[j - 1] {
        sub := sub + 1;
      }
      q[j] := Min(p[j] + 1, Min(q[j - 1] + 1, sub));
    }
  }

  /** `string_distance`; its result is an int, so longer strings have no distance to return. */
  method StringDistance(s1: string, s2: string) returns (d: U32)
    requires |s1| < 0x8000_0000 && |s2| < 0x8000_0000
    ensures d == Lev(s1, s2) && d < 0x8000_0000
  {
    var p, q := new U32[|s2| + 1], new U32[|s2| + 1];
    p[0] := 0;
    for i := 1 to |s2| + 1
      invariant forall j :: 0 <= j < i ==> p[j] == j
    {
      p[i] := p[i - 1] + 1;
    }
    assert s1[..0] == "";
    for i := 1 to |s1| + 1
      invariant p != q && fresh(p) && fresh(q) && p.Length == |s2| + 1 && q.Length == |s2| + 1
      invariant Holds(p, LevRow(s1[..i - 1], s2), |s2| + 1)
    {
      NextRow(s1, s2, i);
      FillRow(p, q, s1[i - 1], s2, LevRow(s1[..i - 1], s2), LevRow(s1[..i], s2));
      p, q := q, p;
    }
    assert s1[..|s1|] == s1 && s2[..|s2|] == s2;
    LevBound(s1, s2);
    d := p[|s2|];
  }

  // ----- The closest option

  /** `struct fio_option` as far as the search looks at it. */
  datatype Opt =
    Opt(name: string, aliasName: Option<string>, profName: Option<string>, parent: Option<string>, deprecated: bool)

  predicate Eligible(o: Opt, profile: Option<string>) {
    !o.deprecated && (if profile.None? then o.profName.None? else o.profName == profile)
  }

  predicate Matches(o: Opt, name: string) {
    o.name == name || o.aliasName == Some(name)
  }

  /** No name, or "all", asks for every option. */
  predicate AsksForAll(name: Option<string>) {
    name.None? || name.value == "all"
  }

  predicate Wanted(o: Opt, profile: Option<string>, name: Option<string>) {
    Eligible(o, profile) && (AsksForAll(name) || (name.Some? && Matches(o, name.value)))
  }

  /** Of the wanted options all are shown but those that, with everything asked for, come under their parent. */
  predicate Shown(o: Opt, profile: Option<string>, name: Option<string>) {
    Wanted(o, profile, name) && (AsksForAll(name) ==> o.parent.None? || (name.Some? && Matches(o, name.value)))
  }

  /** Of the first n options, k is the first of the closest among those that are searched and do not match. */
  ghost predicate ClosestOf(options: seq<Opt>, profile: Option<string>, name: string, k: nat, n: nat)
    requires n <= |options|
  {
    && k < n && Eligible(options[k], profile) && !Matches(options[k], name)
    && (forall i :: 0 <= i < n && Eligible(options[i], profile) && !Matches(options[i], name) ==>
          Lev(name, options[k].name) <= Lev(name, options[i].name))
    && (forall i :: 0 <= i < k && Eligible(options[i], profile) && !Matches(options[i], name) ==>
          Lev(name, options[k].name) < Lev(name, options[i].name))
  }

  /** The best so far among the first n options: none before any is searched. */
  ghost predicate BestOf(options: seq<Opt>, profile: Option<string>, name: string, best: Option<nat>, dist: U32, n: nat)
    requires n <= |options|
  {
    match best
    case Some(k) => ClosestOf(options, profile, name, k, n) && dist == Lev(name, options[k].name)
    case None =>
      dist == 0xFFFF_FFFF && forall i :: 0 <= i < n && Eligible(options[i], profile) ==> Matches(options[i], name)
  }

  /** A searched option takes the place of the best if it is strictly closer. */
  method Weigh(options: seq<Opt>, profile: Option<string>, name: string, n: nat, best: Option<nat>, dist: U32)
    returns (best': Option<nat>, dist': U32)
    requires n < |options| && Eligible(options[n], profile) && !Matches(options[n], name)
    requires |name| < 0x8000_0000 && |options[n].name| < 0x8000_0000
    requires BestOf(options, profile, name, best, dist, n)
    ensures BestOf(options, profile, name, best', dist', n + 1)
  {
    best', dist' := best, dist;
    var d := StringDistance(name, options[n].name);
    if d < dist {
      dist', best' := d, Some(n);
    }
  }

  /** Taken in order, the numbers of those of the first n options that are shown. */
  ghost function ShownFirst(options: seq<Opt>, profile: Option<string>, name: Option<string>, n: nat): (shown: seq<nat>)
    requires n <= |options|
    ensures forall i: nat :: i in shown <==> i < n && Shown(options[i], profile, name)
    ensures forall i, j :: 0 <= i < j < |shown| ==> shown[i] < shown[j]
  {
    if n == 0 then []
    else
      var before := ShownFirst(options, profile, name, n - 1);
      assert forall i :: 0 <= i < |before| ==> before[i] in before;
      if Shown(options[n - 1], profile, name) then before + [n - 1] else before
  }

  /**
    `show_cmd_help`: whether anything is found, which options are shown in their own right, and which one is suggested
    when nothing is found.
   */
  method ShowCmdHelp(options: seq<Opt>, profile: Option<string>, name: Option<string>)
    returns (found: bool, shown: seq<nat>, suggested: Option<nat>)
    requires forall o :: o in options ==> |o.name| < 0x8000_0000
    requires name.Some? ==> |name.value| < 0x8000_0000
    ensures found <==> exists o :: o in options && Wanted(o, profile, name)
    ensures forall i: nat :: i in shown <==> i < |options| && Shown(options[i], profile, name)
    ensures forall i, j :: 0 <= i < j < |shown| ==> shown[i] < shown[j]
    ensures found || name.None? ==> suggested == None
    ensures !found && name.Some? ==> match suggested
      case Some(k) => ClosestOf(options, profile, name.value, k, |options|) && Lev(name.value, options[k].name) < 3
      case None =>
        forall i :: 0 <= i < |options| && Eligible(options[i], profile) ==> Lev(name.value, options[i].name) >= 3
  {
    var showAll := AsksForAll(name);
    var closest: Option<nat>, bestDist: U32 := None, 0xFFFF_FFFF;
    found, shown := false, [];
    for n := 0 to |options|
      invariant found <==> exists i :: 0 <= i < n && Wanted(options[i], profile, name)
      invariant shown == ShownFirst(options, profile, name, n)
      invariant name.None? ==> closest == None
      invariant name.Some? ==> BestOf(options, profile, name.value, closest, bestDist, n)
    {
      var o := options[n];
      if !Eligible(o, profile) {
        continue;
      }
      var matched := name.Some? && Matches(o, name.value);
      if name.Some? && !matched {
        closest, bestDist := Weigh(options, profile, name.value, n, closest, bestDist);
      }
      if showAll || matched {
        found := true;
        if matched || o.parent.None? {
          shown := shown + [n];
        }
      }
    }
    suggested := if !found && closest.Some? && bestDist < 3 then closest else None;
  }
}
