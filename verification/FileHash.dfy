/**
  The chained hash of open files, after `filehash.c`, over the lists of Flist. A list entry leads back to its file by
  the file's number; bucket heads have the number -1.
 */
module FileHash {
  import opened Bits
  import opened Common
  import opened Flist
  import Hash

  type Name = seq<Hash.Byte>

  /** The bucket of a name: `jhash(name, strlen(name), 0) & HASH_MASK`. */
  function Bucket(name: Name): (b: nat)
    ensures b < 512
  {
    var h := Hash.HashBlocks(Hash.StartTriple(|name|, 0), name);
    assert Pow2(9) == 512 by { assert Pow2(4) == 16; }
    MaskIsRemainder(h, 9);
    And(h, 511)
  }

  class FioFile {
    const name: Name
    const link: Link<int>
    var hashed: bool

    constructor (name: Name, number: nat)
      ensures this.name == name && !hashed && fresh(link) && link.owner == number
    {
      this.name, hashed := name, false;
      link := new Link<int>(number);
    }
  }

  // ----- The buckets

  /** The 512 lists. */
  class Buckets {
    const heads: seq<Link<int>>
    ghost var rings: seq<seq<Link<int>>>      // the links of each list, its head first
    ghost var home: map<Link<int>, nat>       // which list a link is on

    ghost predicate Valid()
      reads this, home.Keys
    {
      ShapeOk() && forall b :: 0 <= b < 512 ==> RingOk(b)
    }

    /** No link is on two lists. */
    ghost predicate ShapeOk()
      reads this
    {
      && |heads| == |rings| == 512
      && (forall b :: 0 <= b < 512 ==> |rings[b]| > 0 && rings[b][0] == heads[b])
      && (forall b, i :: 0 <= b < 512 && 0 <= i < |rings[b]| ==> rings[b][i] in home && home[rings[b][i]] == b)
      && (forall l :: l in home ==> home[l] < 512 && l in rings[home[l]])
    }

    ghost predicate RingOk(b: nat)
      requires ShapeOk() && b < 512
      reads this, home.Keys
    {
      Ring(rings[b])
    }

    /** The loop of `file_hash_init`. */
    constructor ()
      ensures Valid() && fresh(home.Keys)
      ensures forall b :: 0 <= b < 512 ==> rings[b] == [heads[b]] && heads[b].owner == -1
    {
      var hs: seq<Link<int>> := [];
      ghost var hm: map<Link<int>, nat> := map[];
      while |hs| < 512
        invariant |hs| <= 512 && fresh(hm.Keys)
        invariant forall i :: 0 <= i < |hs| ==> hs[i] in hm && hm[hs[i]] == i
        invariant forall l :: l in hm ==> hm[l] < |hs| && hs[hm[l]] == l
        invariant forall i :: 0 <= i < |hs| ==> hs[i].owner == -1 && Ring([hs[i]])
      {
        var h := new Link<int>(-1);
        Init(h);
        hm := hm[h := |hs|];
        hs := hs + [h];
      }
      heads, rings, home := hs, seq(512, b requires 0 <= b < |hs| => [hs[b]]), hm;
      new;
      forall b | 0 <= b < 512 ensures RingOk(b) { assert rings[b] == [heads[b]]; }
    }

    /** A link joins list b at its end. */
    method Append(b: nat, entry: Link<int>)
      requires Valid() && b < 512 && entry !in home
      modifies this`rings, this`home, home.Keys, entry
      ensures Valid() && rings == old(rings)[b := old(rings[b]) + [entry]] && home == old(home)[entry := b]
    {
      ghost var ring := rings[b];
      assert RingOk(b);
      AddTail(entry, heads[b], ring);
      forall c | 0 <= c < 512 && c != b ensures Ring(rings[c]) {
        assert old(RingOk(c));
        assert forall i :: 0 <= i < |rings[c]| ==> home[rings[c][i]] == c;
      }
      rings := rings[b := ring + [entry]];
      home := home[entry := b];
    }

    /** A link leaves its list. */
    method Delete(entry: Link<int>, ghost b: nat, ghost i: nat)
      requires Valid() && b < 512 && 0 < i < |rings[b]| && entry == rings[b][i]
      modifies this`rings, this`home, home.Keys
      ensures Valid() && rings == old(rings)[b := old(rings[b])[..i] + old(rings[b])[i + 1..]]
      ensures home == old(home) - {entry} && Ring([entry])
    {
      ghost var ring := rings[b];
      assert RingOk(b);
      DelInit(entry, ring, i);
      forall c | 0 <= c < 512 && c != b ensures Ring(rings[c]) {
        assert old(RingOk(c));
        assert forall k :: 0 <= k < |rings[c]| ==> home[rings[c][k]] == c;
      }
      rings := rings[b := ring[..i] + ring[i + 1..]];
      home := home - {entry};
    }
  }

  // ----- The table

  type Rings = seq<seq<Link<int>>>

  /** What the buckets hold and what they stand for. */
  datatype Index = Index(hashed: set<nat>, rings: Rings, table: map<Name, nat>)

  /** Every list entry is the link of a hashed file in the file's own bucket. */
  ghost predicate EntriesOk(x: Index, files: seq<FioFile>, bucketOf: Name -> nat) {
    forall b, i :: 0 <= b < |x.rings| && 0 < i < |x.rings[b]| ==>
      var f := x.rings[b][i].owner;
      0 <= f < |files| && f in x.hashed && files[f].link == x.rings[b][i] && bucketOf(files[f].name) == b
  }

  /** Every hashed file is on a list, and is what the table has under its name. */
  ghost predicate HashedOk(x: Index, files: seq<FioFile>, bucketOf: Name -> nat) {
    && (forall f :: f in x.hashed ==> f < |files| && files[f].name in x.table && x.table[files[f].name] == f)
    && (forall n :: n in x.table ==> x.table[n] in x.hashed && files[x.table[n]].name == n)
    && (forall f :: f in x.hashed ==>
      bucketOf(files[f].name) < |x.rings| && files[f].link in x.rings[bucketOf(files[f].name)])
  }

  ghost predicate FilesOk(x: Index, files: seq<FioFile>) {
    && (forall f :: 0 <= f < |files| ==> files[f].link.owner == f)
    && (forall i, j :: 0 <= i < j < |files| ==> files[i] != files[j])
    && (forall b :: 0 <= b < |x.rings| && |x.rings[b]| > 0 ==> x.rings[b][0].owner == -1)
  }

  ghost predicate IndexOk(x: Index, files: seq<FioFile>, bucketOf: Name -> nat) {
    EntriesOk(x, files, bucketOf) && HashedOk(x, files, bucketOf) && FilesOk(x, files)
  }

  /** File f joins bucket b. */
  ghost function Added(x: Index, files: seq<FioFile>, f: nat, b: nat): Index
    requires f < |files| && b < |x.rings|
  {
    Index(x.hashed + {f}, x.rings[b := x.rings[b] + [files[f].link]], x.table[files[f].name := f])
  }

  /** File f, which is entry i of bucket b, goes. */
  ghost function Dropped(x: Index, files: seq<FioFile>, f: nat, b: nat, i: nat): Index
    requires f < |files| && b < |x.rings| && i < |x.rings[b]|
  {
    Index(x.hashed - {f}, x.rings[b := x.rings[b][..i] + x.rings[b][i + 1..]], x.table - {files[f].name})
  }

  lemma EnterIndex(x: Index, y: Index, files: seq<FioFile>, bucketOf: Name -> nat, f: nat, b: nat)
    requires IndexOk(x, files, bucketOf) && f < |files| && f !in x.hashed && files[f].name !in x.table
    requires b == bucketOf(files[f].name) < |x.rings| && |x.rings[b]| > 0
    requires y == Added(x, files, f, b)
    ensures IndexOk(y, files, bucketOf)
  {
  }

  lemma LeaveIndex(x: Index, y: Index, files: seq<FioFile>, bucketOf: Name -> nat, f: nat, b: nat, i: nat)
    requires IndexOk(x, files, bucketOf) && f in x.hashed && b == bucketOf(files[f].name) < |x.rings|
    requires 0 < i < |x.rings[b]| && x.rings[b][i] == files[f].link && Distinct(x.rings[b])
    requires f < |files| && y == Dropped(x, files, f, b, i)
    ensures IndexOk(y, files, bucketOf)
  {
    LeaveEntries(x, y, files, bucketOf, f, b, i);
    LeaveHashed(x, y, files, bucketOf, f, b, i);
  }

  lemma LeaveEntries(x: Index, y: Index, files: seq<FioFile>, bucketOf: Name -> nat, f: nat, b: nat, i: nat)
    requires IndexOk(x, files, bucketOf) && f in x.hashed && b < |x.rings| && 0 < i < |x.rings[b]|
    requires f < |files| && x.rings[b][i] == files[f].link && Distinct(x.rings[b]) && b == bucketOf(files[f].name)
    requires y == Dropped(x, files, f, b, i)
    ensures EntriesOk(y, files, bucketOf)
  {
    forall j | 0 < j < |y.rings[b]| ensures y.rings[b][j].owner != f && y.rings[b][j] in x.rings[b] {
      NotDropped(x.rings[b], i, j);
    }
  }

  lemma LeaveHashed(x: Index, y: Index, files: seq<FioFile>, bucketOf: Name -> nat, f: nat, b: nat, i: nat)
    requires IndexOk(x, files, bucketOf) && f in x.hashed && b < |x.rings| && 0 < i < |x.rings[b]|
    requires f < |files| && x.rings[b][i] == files[f].link && b == bucketOf(files[f].name)
    requires y == Dropped(x, files, f, b, i)
    ensures HashedOk(y, files, bucketOf)
  {
    forall g | g in x.hashed && g != f && bucketOf(files[g].name) == b ensures files[g].link in y.rings[b] {
      StillListed(x.rings[b], i, files[g].link);
    }
  }

  /** What a list loses when entry i goes. */
  lemma StillListed(ring: seq<Link<int>>, i: nat, link: Link<int>)
    requires i < |ring| && link in ring && link != ring[i]
    ensures link in ring[..i] + ring[i + 1..]
  {
    var j :| 0 <= j < |ring| && ring[j] == link;
    assert (ring[..i] + ring[i + 1..])[if j < i then j else j - 1] == link;
  }

  lemma NotDropped(ring: seq<Link<int>>, i: nat, j: nat)
    requires i < |ring| && Distinct(ring) && j < |ring| - 1
    ensures var e := (ring[..i] + ring[i + 1..])[j]; e == ring[if j < i then j else j + 1] && e != ring[i]
  {
  }

  lemma MoreFiles(x: Index, files: seq<FioFile>, file: FioFile, bucketOf: Name -> nat)
    requires IndexOk(x, files, bucketOf) && file.link.owner == |files| && file !in files
    ensures IndexOk(x, files + [file], bucketOf)
  {
    var more := files + [file];
    assert forall f :: 0 <= f < |files| ==> more[f] == files[f];
  }

  class FileHash {
    const bucketOf: Name -> nat
    const buckets: Buckets
    var files: seq<FioFile>
    ghost var hashed: set<nat>
    ghost var table: map<Name, nat>      // what the hash stands for

    ghost predicate Valid()
      reads this, files, buckets, buckets.home.Keys
    {
      TableOk() && FlagsOk()
    }

    ghost predicate TableOk()
      reads this, buckets, buckets.home.Keys
    {
      && buckets.Valid()
      && (forall n :: bucketOf(n) < 512)
      && IndexOk(Now(), files, bucketOf)
    }

    ghost function Now(): Index
      reads this, buckets
    {
      Index(hashed, buckets.rings, table)
    }

    /** The flag of a file says whether it is linked. */
    ghost predicate FlagsOk()
      reads this, files
    {
      forall f :: 0 <= f < |files| ==> (files[f].hashed <==> f in hashed)
    }

    /** `file_hash_init`. */
    constructor (bucketOf: Name -> nat)
      requires forall n :: bucketOf(n) < 512
      ensures Valid() && files == [] && table == map[] && this.bucketOf == bucketOf
    {
      this.bucketOf, files := bucketOf, [];
      buckets := new Buckets();
      hashed, table := {}, map[];
    }

    /** A new file, which gets the next number and is not hashed. */
    method NewFile(name: Name) returns (f: nat)
      requires Valid()
      modifies this`files
      ensures Valid() && table == old(table) && hashed == old(hashed)
      ensures f == |old(files)| && |files| == f + 1 && files[..f] == old(files) && files[f].name == name
      ensures !files[f].hashed && fresh(files[f])
    {
      f := |files|;
      var file := new FioFile(name, f);
      Adopt(file);
    }

    method Adopt(file: FioFile)
      requires Valid() && !file.hashed && file.link.owner == |files| && file !in files
      modifies this`files
      ensures Valid() && files == old(files) + [file]
    {
      MoreFiles(Now(), files, file, bucketOf);
      files := files + [file];
    }

    /** A file that is not hashed is on no list. */
    lemma Unlisted(f: nat)
      requires TableOk() && f < |files| && f !in hashed
      ensures files[f].link !in buckets.home
    {
    }

    /** `__lookup_file_hash`: walks the list of the name's bucket. */
    method Lookup(name: Name) returns (f: Option<nat>)
      requires TableOk()
      ensures f == if name in table then Some(table[name]) else None
    {
      var b := bucketOf(name);
      ghost var c := buckets.rings[b];
      assert buckets.RingOk(b) && Linked(c, 0);
      InItsBucket(name);
      var n := buckets.heads[b].next;
      ghost var i := 1;
      while n != buckets.heads[b]
        invariant n != null && 1 <= i <= |c| && n == if i == |c| then c[0] else c[i]
        invariant forall j :: 0 < j < i ==> files[c[j].owner].name != name
        decreases |c| - i
      {
        assert Linked(c, i);
        var k := n.owner;
        if files[k].name == name {
          return Some(k);
        }
        n := n.next;
        i := i + 1;
      }
      return None;
    }

    /** A name in the table is found in its bucket, behind the head. */
    lemma InItsBucket(name: Name)
      requires TableOk()
      ensures name in table ==>
        var ring := buckets.rings[bucketOf(name)];
        exists i :: 0 < i < |ring| && files[ring[i].owner].name == name
    {
      if name in table {
        var ring, link := buckets.rings[bucketOf(name)], files[table[name]].link;
        var i :| 0 <= i < |ring| && ring[i] == link;
        assert i != 0;
      }
    }

    method InitLink(f: nat)
      requires Valid() && f < |files| && f !in hashed
      modifies files[f].link
      ensures Valid()
    {
      Unlisted(f);
      Init(files[f].link);
    }

    /** `add_file_hash`: the file that already has this name, or nothing, in which case the file has been added. */
    method Add(f: nat) returns (alias: Option<nat>)
      requires Valid() && f < |files|
      modifies this`hashed, this`table, files, buckets`rings, buckets`home, buckets.home.Keys, files[f].link
      ensures Valid()
      ensures old(files[f].hashed) ==> alias == None && table == old(table)
      ensures !old(files[f].hashed) && files[f].name in old(table) ==>
        alias == Some(old(table)[files[f].name]) && table == old(table)
      ensures !old(files[f].hashed) && files[f].name !in old(table) ==>
        alias == None && table == old(table)[files[f].name := f]
    {
      if files[f].hashed {
        return None;
      }
      alias := AddLinked(f);
    }

    method AddLinked(f: nat) returns (alias: Option<nat>)
      requires Valid() && f < |files| && f !in hashed
      modifies this`hashed, this`table, files[f], buckets`rings, buckets`home, buckets.home.Keys, files[f].link
      ensures Valid()
      ensures files[f].name in old(table) ==> alias == Some(old(table)[files[f].name]) && table == old(table)
      ensures files[f].name !in old(table) ==> alias == None && table == old(table)[files[f].name := f]
    {
      InitLink(f);
      alias := Lookup(files[f].name);
      if alias == None {
        Enter(f);
      }
    }

    /** The file's flag is set and its link joins list b. */
    method LinkIn(f: nat, b: nat)
      requires buckets.Valid() && FlagsOk() && f < |files| && b < 512 && files[f].link !in buckets.home
      requires forall i, j :: 0 <= i < j < |files| ==> files[i] != files[j]
      modifies this`hashed, this`table, files[f], buckets`rings, buckets`home, buckets.home.Keys, files[f].link
      ensures buckets.Valid() && FlagsOk()
      ensures Now() == Added(old(Now()), files, f, b)
    {
      files[f].hashed := true;
      hashed := hashed + {f};
      table := table[files[f].name := f];
      buckets.Append(b, files[f].link);
    }

    method Enter(f: nat)
      requires Valid() && f < |files| && f !in hashed && files[f].name !in table
      modifies this`hashed, this`table, files[f], buckets`rings, buckets`home, buckets.home.Keys, files[f].link
      ensures Valid() && table == old(table)[files[f].name := f]
    {
      Unlisted(f);
      ghost var before := Now();
      var b := bucketOf(files[f].name);
      LinkIn(f, b);
      EnterIndex(before, Now(), files, bucketOf, f, b);
    }

    /** `remove_file_hash`; its assertion that the file is on a list holds. */
    method Remove(f: nat)
      requires Valid() && f < |files|
      modifies this`hashed, this`table, files[f], buckets`rings, buckets`home, buckets.home.Keys
      ensures Valid() && !files[f].hashed
      ensures table == if old(files[f].hashed) then old(table) - {files[f].name} else old(table)
    {
      if files[f].hashed {
        ghost var _ := PlaceOf(f);
        assert files[f].link.next != files[f].link;
        Leave(f);
      }
    }

    /** The file's link leaves list b and its flag is cleared. */
    method LinkOut(f: nat, ghost b: nat, ghost i: nat)
      requires buckets.Valid() && FlagsOk() && f < |files| && b < 512
      requires 0 < i < |buckets.rings[b]| && buckets.rings[b][i] == files[f].link
      requires forall i, j :: 0 <= i < j < |files| ==> files[i] != files[j]
      modifies this`hashed, this`table, files[f], buckets`rings, buckets`home, buckets.home.Keys
      ensures buckets.Valid() && FlagsOk() && !files[f].hashed
      ensures Now() == Dropped(old(Now()), files, f, b, i)
    {
      files[f].hashed := false;
      hashed := hashed - {f};
      table := table - {files[f].name};
      buckets.Delete(files[f].link, b, i);
    }

    method Leave(f: nat)
      requires Valid() && f in hashed
      modifies this`hashed, this`table, files[f], buckets`rings, buckets`home, buckets.home.Keys
      ensures Valid() && !files[f].hashed && table == old(table) - {files[f].name}
    {
      ghost var before := Now();
      ghost var b := bucketOf(files[f].name);
      ghost var i := PlaceOf(f);
      LinkOut(f, b, i);
      LeaveIndex(before, Now(), files, bucketOf, f, b, i);
    }

    /** Where a hashed file is linked: on a list that is not empty. */
    lemma PlaceOf(f: nat) returns (i: nat)
      requires TableOk() && f in hashed
      ensures var ring := buckets.rings[bucketOf(files[f].name)];
              0 < i < |ring| && ring[i] == files[f].link && Distinct(ring)
      ensures files[f].link.next != files[f].link
    {
      var b := bucketOf(files[f].name);
      i :| 0 <= i < |buckets.rings[b]| && buckets.rings[b][i] == files[f].link;
      assert buckets.RingOk(b) && Linked(buckets.rings[b], i);
    }
  }
}
