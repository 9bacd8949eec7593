/**
  The intrusive circular lists of `flist.h`. A list is a ring of links; a ghost sequence names them in order, the head
  first.
 */
module Flist {

  /** `struct flist_head`; `owner` stands for the structure the link is embedded in. */
  class Link<T> {
    var next: Link?<T>
    var prev: Link?<T>
    const owner: T

    /** A link that is not on any list. */
    constructor (owner: T)
      ensures this.owner == owner && next == null && prev == null
    {
      this.owner, next, prev := owner, null, null;
    }
  }

  function After(i: nat, n: nat): nat {
    if i + 1 == n then 0 else i + 1
  }

  ghost predicate Distinct<T>(s: seq<T>) {
    forall i, j :: 0 <= i < j < |s| ==> s[i] != s[j]
  }

  /** Links c[i] and its successor refer to each other. */
  ghost predicate Linked<T>(c: seq<Link<T>>, i: nat)
    requires i < |c|
    reads c
  {
    c[i].next == c[After(i, |c|)] && c[After(i, |c|)].prev == c[i]
  }

  /** The links of c, without repetition, follow one another round in both directions. */
  ghost predicate Ring<T>(c: seq<Link<T>>)
    reads c
  {
    |c| > 0 && Distinct(c) && forall i :: 0 <= i < |c| ==> Linked(c, i)
  }

  /** `INIT_FLIST_HEAD`. */
  method Init<T>(h: Link<T>)
    modifies h
    ensures Ring([h])
  {
    h.next, h.prev := h, h;
  }

  /** `flist_empty`. */
  method IsEmpty<T(==)>(h: Link<T>, ghost c: seq<Link<T>>) returns (b: bool)
    requires Ring(c) && h == c[0]
    ensures b <==> c == [h]
  {
    b := h.next == h;
    assert Linked(c, 0);
  }

  /** `__flist_add`: between c[i] and its successor. */
  method AddBetween<T>(entry: Link<T>, prev: Link<T>, next: Link<T>, ghost c: seq<Link<T>>, ghost i: nat)
    requires Ring(c) && i < |c| && prev == c[i] && next == c[After(i, |c|)] && entry !in c
    modifies entry, prev, next
    ensures Ring(c[..i + 1] + [entry] + c[i + 1..])
  {
    next.prev := entry;
    entry.next := next;
    entry.prev := prev;
    prev.next := entry;
    ghost var d := c[..i + 1] + [entry] + c[i + 1..];
    forall k | 0 <= k < |d| ensures Linked(d, k) {
      assert k < i ==> old(Linked(c, k));
      assert k > i + 1 ==> old(Linked(c, k - 1));
    }
  }

  /** `flist_add`. */
  method Add<T>(entry: Link<T>, head: Link<T>, ghost c: seq<Link<T>>)
    requires Ring(c) && head == c[0] && entry !in c
    modifies entry, c
    ensures Ring([head, entry] + c[1..])
  {
    assert Linked(c, 0);
    AddBetween(entry, head, head.next, c, 0);
    assert c[..1] + [entry] + c[1..] == [head, entry] + c[1..];
  }

  /** `flist_add_tail`. */
  method AddTail<T>(entry: Link<T>, head: Link<T>, ghost c: seq<Link<T>>)
    requires Ring(c) && head == c[0] && entry !in c
    modifies entry, c
    ensures Ring(c + [entry])
  {
    assert Linked(c, |c| - 1);
    AddBetween(entry, head.prev, head, c, |c| - 1);
    assert c[..|c|] + [entry] + c[|c|..] == c + [entry];
  }

  /** `__flist_del` around c[i], which is not the head. */
  method Unlink<T>(prev: Link<T>, next: Link<T>, ghost c: seq<Link<T>>, ghost i: nat)
    requires Ring(c) && 0 < i < |c| && prev == c[i - 1] && next == c[After(i, |c|)]
    modifies prev, next
    ensures Ring(c[..i] + c[i + 1..])
    ensures |c| > 2 ==> unchanged(c[i])
  {
    next.prev := prev;
    prev.next := next;
    ghost var d := c[..i] + c[i + 1..];
    forall k | 0 <= k < |d| ensures Linked(d, k) {
      assert k < i - 1 ==> old(Linked(c, k));
      assert k >= i ==> old(Linked(c, k + 1));
    }
  }

  /** `flist_del`. */
  method Del<T>(entry: Link<T>, ghost c: seq<Link<T>>, ghost i: nat)
    requires Ring(c) && 0 < i < |c| && entry == c[i]
    modifies c
    ensures Ring(c[..i] + c[i + 1..]) && entry.next == null && entry.prev == null
  {
    assert Linked(c, i - 1) && Linked(c, i);
    Unlink(entry.prev, entry.next, c, i);
    entry.next, entry.prev := null, null;
  }

  /** `flist_del_init`. */
  method DelInit<T>(entry: Link<T>, ghost c: seq<Link<T>>, ghost i: nat)
    requires Ring(c) && 0 < i < |c| && entry == c[i]
    modifies c
    ensures Ring(c[..i] + c[i + 1..]) && Ring([entry])
  {
    assert Linked(c, i - 1) && Linked(c, i);
    Unlink(entry.prev, entry.next, c, i);
    Init(entry);
  }

  /** `__flist_splice` right behind the head of another list. */
  method SpliceBetween<T>(list: Link<T>, prev: Link<T>, next: Link<T>, ghost c: seq<Link<T>>, ghost d: seq<Link<T>>)
    requires Ring(c) && Ring(d) && list == c[0] && |c| > 1
    requires prev == d[0] && next == d[After(0, |d|)]
    requires forall l :: l in c ==> l !in d
    modifies c, d
    ensures Ring(Spliced(c, d))
    ensures list.next == c[1] && list.prev == c[|c| - 1]
  {
    SplicedDistinct(c, d);
    assert Linked(c, 0) && Linked(c, |c| - 1);
    var first, last := list.next, list.prev;
    first.prev := prev;
    prev.next := first;
    last.next := next;
    next.prev := last;
    ghost var e, n := Spliced(c, d), |c| + |d| - 1;
    forall k | 0 <= k < n ensures Linked(e, k) {
      var l := After(k, n);
      assert e[k] == SplicedAt(c, d, k) && e[l] == SplicedAt(c, d, l);
      assert prev == e[0] && first == e[1] && last == e[|c| - 1] && next == e[After(|c| - 1, n)];
      if k == 0 {
      } else if k < |c| - 1 {
        assert old(Linked(c, k));
        assert e[k] == c[k] && e[l] == c[k + 1];
      } else if k >= |c| {
        assert old(Linked(d, k - |c| + 1));
        assert e[k] == d[k - |c| + 1] && e[l] == d[After(k - |c| + 1, |d|)];
      }
    }
  }

  /** The head of d, then the entries of c, then those of d. */
  ghost function Spliced<T>(c: seq<Link<T>>, d: seq<Link<T>>): (e: seq<Link<T>>)
    requires |c| > 0 && |d| > 0
    ensures |e| == |c| + |d| - 1
  {
    [d[0]] + c[1..] + d[1..]
  }

  ghost function SplicedAt<T>(c: seq<Link<T>>, d: seq<Link<T>>, k: nat): Link<T>
    requires |c| > 0 && |d| > 0 && k < |c| + |d| - 1
  {
    if k == 0 then d[0] else if k < |c| then c[k] else d[k - |c| + 1]
  }

  lemma SplicedDistinct<T>(c: seq<Link<T>>, d: seq<Link<T>>)
    requires |c| > 0 && |d| > 0 && Distinct(c) && Distinct(d) && forall l :: l in c ==> l !in d
    ensures Distinct(Spliced(c, d)) && c[0] !in Spliced(c, d)
  {
    var e := Spliced(c, d);
    forall i, j | 0 <= i < |c| && 0 <= j < |d| ensures c[i] != d[j] { assert c[i] in c; }
    forall k | 0 <= k < |e| ensures e[k] == SplicedAt(c, d, k) && e[k] != c[0] {
      assert 0 < k < |c| ==> c[0] != c[k];
    }
  }

  /** `flist_splice_init`: the entries of one list move to the front of another. */
  method SpliceInit<T(==)>(list: Link<T>, head: Link<T>, ghost c: seq<Link<T>>, ghost d: seq<Link<T>>)
    requires Ring(c) && Ring(d) && list == c[0] && head == d[0]
    requires forall l :: l in c ==> l !in d
    modifies c, d
    ensures Ring(Spliced(c, d)) && Ring([list])
  {
    SplicedDistinct(c, d);
    var empty := IsEmpty(list, c);
    if empty {
      assert Spliced(c, d) == d;
    } else {
      assert Linked(d, 0);
      SpliceBetween(list, head, head.next, c, d);
      Init(list);
    }
  }
}
