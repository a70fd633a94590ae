/** `IPAddrDb` (runtime/singularity.py): the allocation table as text in a file,
    read and written whole by every call. */
module IpAddrDbModel {
  import opened Options
  import opened Ranges
  import opened HexText
  import opened HexRangesModel
  import opened AddrTable

  /** The members of "alloc_tbl": cluster name and printed ranges. */
  type FileContents = seq<(string, string)>

  function Encode(t: Table): FileContents {
    seq(|t|, i requires 0 <= i < |t| => (t[i].name, Print(t[i].ranges)))
  }

  function Decode(f: FileContents): Table {
    seq(|f|, i requires 0 <= i < |f| => Row(f[i].0, Parse(f[i].1)))
  }

  lemma EncodeNext(t: Table, i: nat)
    requires i < |t|
    ensures Encode(t[..i + 1]) == Encode(t[..i]) + [(t[i].name, Print(t[i].ranges))]
  {
  }

  /** What is written is what will be read. */
  lemma DecodeEncode(t: Table, net: Net)
    requires Consistent(t, net) && 0 <= net.min
    ensures Decode(Encode(t)) == t
  {
    forall i | 0 <= i < |t| ensures Decode(Encode(t))[i] == t[i] {
      ParsePrint(t[i].ranges);
    }
  }

  lemma EncodeMembers(t: Table, e: (string, string))
    ensures e in Encode(t) <==> exists r: Row :: r in t && e == (r.name, Print(r.ranges))
  {
    if e in Encode(t) {
      var i :| 0 <= i < |t| && Encode(t)[i] == e;
      assert t[i] in t;
    }
    if r: Row :| r in t && e == (r.name, Print(r.ranges)) {
      var i :| 0 <= i < |t| && t[i] == r;
      assert Encode(t)[i] == e;
    }
  }

  /** In the file, releasing takes the entry of the cluster out and leaves every
      other as it was. */
  lemma EncodeFree(t: Table, net: Net, name: string)
    requires Consistent(t, net)
    ensures forall e :: e in Encode(Free(t, name)) <==> e in Encode(t) && e.0 != name
  {
    FreeOthers(t, net, name);
    forall e ensures e in Encode(Free(t, name)) <==> e in Encode(t) && e.0 != name {
      EncodeMembers(t, e);
      EncodeMembers(Free(t, name), e);
    }
  }

  lemma EncodeMore(t: Table, r: Row)
    ensures Encode(t + [r]) == Encode(t) + [(r.name, Print(r.ranges))]
  {
  }

  function RangesOf(t: Table): seq<seq<Range>> {
    seq(|t|, i requires 0 <= i < |t| => t[i].ranges)
  }

  function NamesIn(f: FileContents): (names: seq<string>)
    ensures names == NamesOf(Decode(f))
  {
    seq(|f|, i requires 0 <= i < |f| => f[i].0)
  }

  lemma RangesWithout(t: Table, k: nat)
    requires k < |t|
    ensures RangesOf(t[..k] + t[k + 1..]) == RangesOf(t)[..k] + RangesOf(t)[k + 1..]
  {
    DropRow(t, k);
  }

  /** A list with one more object in front of nothing that it shares. */
  lemma LoadedMore(hs: seq<HexRanges>, vals: seq<seq<Range>>, own: set<Cell>, h: HexRanges)
    requires Loaded(hs, vals, own) && h.Valid() && h.Repr !! own
    ensures Loaded(hs + [h], vals + [h.Contents], own + h.Repr)
  {
  }

  lemma LoadedWithout(hs: seq<HexRanges>, vals: seq<seq<Range>>, own: set<Cell>, k: nat)
    requires Loaded(hs, vals, own) && k < |hs|
    ensures Loaded(hs[..k] + hs[k + 1..], vals[..k] + vals[k + 1..], own)
  {
  }

  lemma {:induction false} FlatIsUsed(t: Table)
    ensures Flat(RangesOf(t)) == Used(t)
  {
    if t != [] {
      FlatIsUsed(t[..|t| - 1]);
      assert RangesOf(t)[..|t| - 1] == RangesOf(t[..|t| - 1]);
    }
  }

  /** The file was written by `_write` and nothing in it clashes. */
  ghost predicate Sane(f: FileContents, net: Net) {
    Consistent(Decode(f), net) && f == Encode(Decode(f))
  }

  class IPAddrDb {
    const net: Net
    var file: FileContents

    ghost predicate Valid()
      reads this
    {
      0 <= net.min && Sane(file, net)
    }

    /** A database on a file, `found`; nothing when the file is new or cannot be
        read, in which case `init_db` writes an empty table. `network` is the network
        address, `hostMask` the bits below the prefix, so their bitwise `or` is their
        sum. */
    constructor (network: nat, hostMask: nat, found: Option<FileContents>)
      ensures net == Net(network + 1, network + hostMask - 1)
      ensures file == match found case None => [] case Some(f) => f
      ensures Valid() <==> found.None? || Sane(found.value, Net(network + 1, network + hostMask - 1))
    {
      net := Net(network + 1, network + hostMask - 1);
      file := if found.None? then [] else found.value;
    }

    /** `_read`: new lists, one per cluster. */
    method Read() returns (hs: seq<HexRanges>, ghost own: set<Cell>)
      ensures fresh(own) && fresh(hs) && Loaded(hs, RangesOf(Decode(file)), own)
    {
      hs, own := [], {};
      ghost var vals := RangesOf(Decode(file));
      for i := 0 to |file|
        invariant fresh(own) && fresh(hs) && Loaded(hs, vals[..i], own)
      {
        var h := Loading(file[i].1, hs, vals[..i], own);
        hs, own := hs + [h], own + h.Repr;
        assert vals[..i + 1] == vals[..i] + [vals[i]];
      }
      assert vals[..|vals|] == vals;
    }

    /** `_write` */
    method Write(names: seq<string>, hs: seq<HexRanges>, ghost t: Table, ghost own: set<Cell>)
      requires names == NamesOf(t) && Loaded(hs, RangesOf(t), own)
      modifies this
      ensures file == Encode(t)
    {
      var out: FileContents := [];
      for i := 0 to |hs|
        invariant out == Encode(t[..i])
      {
        assert hs[i].Contents == RangesOf(t)[i];
        var s := hs[i].Str();
        EncodeNext(t, i);
        out := out + [(names[i], s)];
      }
      assert t[..|hs|] == t;
      file := out;
    }

    /** `alloc_tbl.get(name)`: the index of the cluster, or the number of rows. */
    method Lookup(name: string) returns (k: nat)
      ensures k == Find(Decode(file), name)
    {
      k := 0;
      while k < |file| && file[k].0 != name
        invariant k <= |file|
        invariant forall i | 0 <= i < k :: file[i].0 != name
      {
        k := k + 1;
      }
      FindUnique(Decode(file), name, k);
    }

    /** Request `n` addresses for a cluster. */
    method AllocAddr(name: string, n: nat) returns (addrs: HexRanges?)
      requires Valid()
      modifies this
      ensures Valid()
      ensures var (t', r) := Alloc(old(Decode(file)), net, name, n);
              && Decode(file) == t'
              && (addrs == null <==> r.None?)
              && (r.Some? ==> addrs.Valid() && addrs.Contents == r.value)
      ensures addrs != null ==> (name, Print(addrs.Contents)) in file
      ensures forall e | e in old(file) :: e in file
      ensures forall e | e in file && e !in old(file) :: e.0 == name && addrs != null
    {
      ghost var t := Decode(file);
      AllocCases(t, net, name, n);
      var k := Lookup(name);
      ghost var own;
      var hs;
      hs, own := Read();
      if k < |file| {
        assert file[k] == Encode(t)[k] && hs[k].Contents == RangesOf(t)[k];
        return hs[k];
      }
      var missing;
      addrs, missing := Select(hs, net, n, t, own);
      if missing > 0 {
        return null;
      }
      ghost var t' := t + [Row(name, addrs.Contents)];
      Store(hs, name, addrs, t, own);
      DecodeEncode(t', net);
      EncodeMore(t, Row(name, addrs.Contents));
    }

    /** `alloc_tbl[name] = addrs`, then `_write`. */
    method Store(hs: seq<HexRanges>, name: string, addrs: HexRanges, ghost t: Table, ghost own: set<Cell>)
      requires t == Decode(file) && Loaded(hs, RangesOf(t), own)
      requires addrs.Valid() && addrs.Repr !! own
      modifies this
      ensures file == Encode(t + [Row(name, addrs.Contents)])
    {
      ghost var t' := t + [Row(name, addrs.Contents)];
      LoadedMore(hs, RangesOf(t), own, addrs);
      assert RangesOf(t') == RangesOf(t) + [addrs.Contents];
      assert NamesOf(t') == NamesOf(t) + [name];
      Write(NamesIn(file) + [name], hs + [addrs], t', own + addrs.Repr);
    }

    /** Release the addresses of a cluster. */
    method FreeAddr(name: string)
      requires Valid()
      modifies this
      ensures Valid()
      ensures Decode(file) == Free(old(Decode(file)), name)
      ensures forall e :: e in file <==> e in old(file) && e.0 != name
    {
      ghost var t := Decode(file);
      EncodeFree(t, net, name);
      FreeConsistent(t, net, name);
      DecodeEncode(Free(t, name), net);
      Remove(name, t);
    }

    /** The body of `free_addr`. */
    method Remove(name: string, ghost t: Table)
      requires t == Decode(file)
      modifies this
      ensures file == Encode(Free(t, name))
    {
      var k := Lookup(name);
      var hs;
      ghost var own;
      hs, own := Read();
      if k < |file| {
        StoreWithout(hs, k, t, own);
      } else {
        Write(NamesIn(file), hs, t, own);
      }
    }

    /** `alloc_tbl.pop(name)`, then `_write`. */
    method StoreWithout(hs: seq<HexRanges>, k: nat, ghost t: Table, ghost own: set<Cell>)
      requires t == Decode(file) && Loaded(hs, RangesOf(t), own) && k < |t|
      modifies this
      ensures file == Encode(t[..k] + t[k + 1..])
    {
      var names := NamesIn(file);
      LoadedWithout(hs, RangesOf(t), own, k);
      RangesWithout(t, k);
      NamesWithout(t, k);
      Write(names[..k] + names[k + 1..], hs[..k] + hs[k + 1..], t[..k] + t[k + 1..], own);
    }
  }

  /** The union of the stored allocations. It shares their cells, which will be
      written back; they are not edited, because no two allocations overlap. */
  method UnionOfAll(hs: seq<HexRanges>, ghost t: Table, ghost net: Net, ghost own: set<Cell>) returns (u: HexRanges)
    requires Consistent(t, net) && Loaded(hs, RangesOf(t), own)
    modifies own
    ensures fresh(u) && u.Valid() && u.Contents == Prune(Used(t)) && Normal(u.Contents)
    ensures forall c | c in own :: c.ends == old(c.ends)
    ensures Loaded(hs, RangesOf(t), own)
  {
    UsedNormal(t, net);
    FlatIsUsed(t);
    u := Union(hs, RangesOf(t), own);
    assert forall i | 0 <= i < |hs| :: hs[i].Valid();
  }

  /** One more object, for the ranges in a text. */
  method Loading(text: string, ghost hs: seq<HexRanges>, ghost vals: seq<seq<Range>>, ghost own: set<Cell>)
    returns (h: HexRanges)
    requires Loaded(hs, vals, own)
    ensures fresh(h) && fresh(h.Repr) && Loaded(hs + [h], vals + [Parse(text)], own + h.Repr)
  {
    h := new HexRanges(text);
    LoadedMore(hs, vals, own, h);
  }

  /** The union, inverted. */
  method Unused(hs: seq<HexRanges>, net: Net, ghost t: Table, ghost own: set<Cell>) returns (avail: HexRanges)
    requires Consistent(t, net) && Loaded(hs, RangesOf(t), own)
    modifies own
    ensures Loaded(hs, RangesOf(t), own)
    ensures fresh(avail) && fresh(avail.Repr) && avail.Valid()
    ensures Normal(avail.Contents) && avail.Contents == Available(t, net)
  {
    AvailableIsFree(t, net);
    var u := UnionOfAll(hs, t, net, own);
    avail := u.Inverse(net.min, net.max);
  }

  /** New ranges apart from all stored ones, which stay as they are. */
  method Select(hs: seq<HexRanges>, net: Net, n: nat, ghost t: Table, ghost own: set<Cell>)
    returns (addrs: HexRanges, missing: nat)
    requires Consistent(t, net) && Loaded(hs, RangesOf(t), own)
    modifies own
    ensures Loaded(hs, RangesOf(t), own)
    ensures fresh(addrs) && fresh(addrs.Repr) && addrs.Valid()
    ensures (addrs.Contents, missing) == TakeLow(Available(t, net), n)
  {
    var avail := Unused(hs, net, t, own);
    addrs, missing := FirstFit(avail, n);
  }

  lemma {:induction false} FindUnique(t: Table, name: string, k: nat)
    requires k <= |t| && (k < |t| ==> t[k].name == name)
    requires forall i | 0 <= i < k :: t[i].name != name
    ensures k == Find(t, name)
  {
    if k > 0 {
      FindUnique(t[1..], name, k - 1);
    }
  }
}
