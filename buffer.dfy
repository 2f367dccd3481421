/**
 The incremental encoding buffer of the czip encoder: bytes are staged in a
 pending area, committed to the output stream by `End`, which may also record
 the original value in one of two flag caches, and the committed state can be
 checkpointed with `Snapshot` and rolled back with `Restore`.
 */
module Encoder {

  /** A Go `byte`. */
  newtype byte = b: int | 0 <= b < 256

  /** The tag a caller supplies with every commit. Only the choice of flag
      cache depends on it; `Other` stands for every further variant. */
  datatype EncodeType = ReadStorage | Stateless | WriteStorage | Other

  /** The caller's index tables. This core only stores and passes on the
      reference, so the tables themselves are not modelled. */
  class Indexes { }

  /** A flag cache: original value -> (position where its encoding was
      committed) + 1, so that 0 never denotes a recorded position. */
  type Flags = map<seq<byte>, int>

  /** Every recorded position lies in 1..len, i.e. every stored value is in
      2..len + 1 (position 0 is the reserved byte, which nothing encodes). */
  ghost predicate FlagsWithin(flags: Flags, len: nat)
  {
    forall k :: k in flags ==> 2 <= flags[k] <= len + 1
  }

  /** The invariant shared by a live buffer and a snapshot: a committed stream
      that starts with the reserved zero byte, and caches that only point into it. */
  ghost predicate Consistent(commited: seq<byte>, refs: References)
    reads refs
  {
    && |commited| >= 1
    && commited[0] == 0
    && FlagsWithin(refs.usedFlags, |commited|)
    && FlagsWithin(refs.usedStorageFlags, |commited|)
  }

  /** A fresh map with the same entries, built entry by entry as the
      `for k, v := range` loops of `References.Copy` do. */
  method CopyFlags(m: Flags) returns (c: Flags)
    ensures c.Keys == m.Keys
    ensures forall k :: k in c ==> c[k] == m[k]
  {
    c := map[];
    var todo := m.Keys;
    while todo != {}
      invariant todo <= m.Keys
      invariant c.Keys == m.Keys - todo
      invariant forall k :: k in c ==> c[k] == m[k]
      decreases todo
    {
      var k :| k in todo;
      c := c[k := m[k]];
      todo := todo - {k};
    }
  }

  class References {
    const useContractStorage: bool
    const indexes: Indexes?
    var usedFlags: Flags
    var usedStorageFlags: Flags

    /** The `&References{...}` literal. */
    constructor (useContractStorage: bool, indexes: Indexes?, usedFlags: Flags, usedStorageFlags: Flags)
      ensures this.useContractStorage == useContractStorage && this.indexes == indexes
      ensures this.usedFlags == usedFlags && this.usedStorageFlags == usedStorageFlags
    {
      this.useContractStorage := useContractStorage;
      this.indexes := indexes;
      this.usedFlags := usedFlags;
      this.usedStorageFlags := usedStorageFlags;
    }

    /** An independent References with the same caches and storage mode. The
        copy does not carry the Indexes reference: it is left nil. */
    method Copy() returns (r: References)
      ensures fresh(r)
      ensures r.usedFlags == usedFlags && r.usedStorageFlags == usedStorageFlags
      ensures r.useContractStorage == useContractStorage
      ensures r.indexes == null
    {
      var flags := CopyFlags(usedFlags);
      var storageFlags := CopyFlags(usedStorageFlags);
      r := new References(useContractStorage, null, flags, storageFlags);
    }
  }

  /** A window of `data` starting at `i` that ends strictly before the last
      committed byte: the only windows `FindPastData` compares. */
  predicate MatchAt(s: seq<byte>, data: seq<byte>, i: int)
  {
    0 <= i && i + |data| < |s| && s[i..i + |data|] == data
  }

  /** `r` is what a search for `data` in `s` must answer: the least matching
      start, or -1 exactly when there is none. */
  ghost predicate IsFirstPast(s: seq<byte>, data: seq<byte>, r: int)
  {
    if r == -1 then forall i :: !MatchAt(s, data, i)
    else MatchAt(s, data, r) && forall j :: 0 <= j < r ==> !MatchAt(s, data, j)
  }

  class Snapshot {
    var commited: seq<byte>
    var refs: References

    /** The `&Snapshot{...}` literal; SignatureLevel is never set and is not modelled. */
    constructor (commited: seq<byte>, refs: References)
      ensures this.commited == commited && this.refs == refs
    {
      this.commited := commited;
      this.refs := refs;
    }

    ghost predicate Valid()
      reads this, refs
    {
      Consistent(commited, refs)
    }
  }

  class Buffer {
    var commited: seq<byte>
    var pending: seq<byte>
    var refs: References

    ghost predicate Valid()
      reads this, refs
    {
      Consistent(commited, refs)
    }

    /** `NewBuffer`: the stream holds only the reserved zero byte, nothing is
        pending and both caches are empty. */
    constructor (indexes: Indexes?, useStorage: bool)
      ensures commited == [0] && pending == []
      ensures fresh(refs)
      ensures refs.indexes == indexes && refs.useContractStorage == useStorage
      ensures refs.usedFlags == map[] && refs.usedStorageFlags == map[]
      ensures Valid()
    {
      commited := [0];
      pending := [];
      refs := new References(useStorage, indexes, map[], map[]);
    }

    function Data(): (d: seq<byte>)
      reads this, refs
      ensures d == commited
      ensures Valid() ==> |d| >= 1 && d[0] == 0
    {
      commited
    }

    function Len(): (n: nat)
      reads this, refs
      ensures n == |commited|
      ensures Valid() ==> n >= 1
    {
      |commited|
    }

    method WriteByte(b: byte)
      modifies this
      ensures pending == old(pending) + [b]
      ensures commited == old(commited) && refs == old(refs)
      ensures Valid() == old(Valid())
    {
      pending := pending + [b];
    }

    method WriteBytes(b: seq<byte>)
      modifies this
      ensures pending == old(pending) + b
      ensures commited == old(commited) && refs == old(refs)
      ensures Valid() == old(Valid())
    {
      pending := pending + b;
    }

    /** Writes the low eight bits of `i`: values above 255 are truncated, not refused. */
    method WriteInt(i: nat)
      modifies this
      ensures |pending| == |old(pending)| + 1 && pending[..|old(pending)|] == old(pending)
      ensures pending[|old(pending)|] as int == i % 256
      ensures commited == old(commited) && refs == old(refs)
      ensures Valid() == old(Valid())
    {
      WriteByte((i % 256) as byte);
    }

    /** The first start of `data` in the committed stream whose window ends
        before the last byte, or -1. */
    method FindPastData(data: seq<byte>) returns (r: int)
      ensures IsFirstPast(commited, data, r)
      ensures r == -1 || 0 <= r < |commited| - |data|
      ensures data == [] && |commited| > 0 ==> r == 0
    {
      assert data == [] && |commited| > 0 ==> MatchAt(commited, data, 0);
      var i := 0;
      while i + |data| < |commited|
        invariant 0 <= i
        invariant forall j :: 0 <= j < i ==> !MatchAt(commited, data, j)
        decreases |commited| - i
      {
        if commited[i..i + |data|] == data {
          return i;
        }
        i := i + 1;
      }
      return -1;
    }

    /** Commits the pending bytes. An original value longer than two bytes is
        recorded, under the pre-commit length + 1, in the cache its tag selects. */
    method End(uncompressed: seq<byte>, t: EncodeType)
      modifies this, refs
      ensures refs == old(refs) && refs.indexes == old(refs.indexes)
      ensures commited == old(commited) + old(pending) && pending == []
      ensures Len() == old(Len()) + |old(pending)|
      ensures |uncompressed| > 2 && t == Stateless ==>
        && refs.usedFlags == old(refs.usedFlags)[uncompressed := old(|commited|) + 1]
        && refs.usedStorageFlags == old(refs.usedStorageFlags)
      ensures |uncompressed| > 2 && t == WriteStorage ==>
        && refs.usedStorageFlags == old(refs.usedStorageFlags)[uncompressed := old(|commited|) + 1]
        && refs.usedFlags == old(refs.usedFlags)
      ensures |uncompressed| <= 2 || t == ReadStorage || t == Other ==>
        && refs.usedFlags == old(refs.usedFlags)
        && refs.usedStorageFlags == old(refs.usedStorageFlags)
      ensures old(Valid()) ==> Valid()
    {
      if |uncompressed| > 2 {
        var rindex := Len();
        match t
        case ReadStorage =>
        case Stateless =>
          refs.usedFlags := refs.usedFlags[uncompressed := rindex + 1];
        case WriteStorage =>
          refs.usedStorageFlags := refs.usedStorageFlags[uncompressed := rindex + 1];
        case Other =>
      }
      commited := commited + pending;
      pending := [];
    }

    /** Captures the committed stream and a copy of the caches; the pending
        bytes are not captured and the buffer is left as it is. */
    method Snapshot() returns (s: Snapshot)
      ensures fresh(s) && fresh(s.refs)
      ensures s.commited == commited
      ensures s.refs.usedFlags == refs.usedFlags && s.refs.usedStorageFlags == refs.usedStorageFlags
      ensures s.refs.useContractStorage == refs.useContractStorage && s.refs.indexes == null
      ensures s.Valid() == Valid()
    {
      var com := commited;
      var r := refs.Copy();
      s := new Snapshot(com, r);
    }

    /** Takes over the snapshot's stream and its References object itself, so
        that later commits also change the snapshot's caches. Pending bytes stay. */
    method Restore(snap: Snapshot)
      modifies this
      ensures commited == snap.commited && refs == snap.refs
      ensures pending == old(pending)
      ensures Valid() == snap.Valid()
    {
      commited := snap.commited;
      refs := snap.refs;
    }

    /** Restore with a private copy of the snapshot's caches, so that the
        snapshot stays as it was taken whatever is committed afterwards. */
    method RestoreOwned(snap: Snapshot)
      modifies this
      ensures commited == snap.commited && fresh(refs)
      ensures refs.usedFlags == snap.refs.usedFlags && refs.usedStorageFlags == snap.refs.usedStorageFlags
      ensures refs.useContractStorage == snap.refs.useContractStorage && refs.indexes == null
      ensures pending == old(pending)
      ensures Valid() == snap.Valid()
    {
      commited := snap.commited;
      refs := snap.refs.Copy();
    }
  }

  /** A match stays a match when more bytes are committed behind it. */
  lemma MatchAtAppend(s: seq<byte>, p: seq<byte>, data: seq<byte>, i: int)
    requires MatchAt(s, data, i)
    ensures MatchAt(s + p, data, i)
  {
  }

  /** Committing more bytes never changes the answer of a successful search:
      an offset returned by FindPastData stays the first one. */
  lemma FirstPastStable(s: seq<byte>, p: seq<byte>, data: seq<byte>, r: int)
    requires IsFirstPast(s, data, r) && r >= 0
    ensures IsFirstPast(s + p, data, r)
  {
    MatchAtAppend(s, p, data, r);
    forall j | 0 <= j < r
      ensures !MatchAt(s + p, data, j)
    {
      assert !MatchAt(s, data, j);
      assert (s + p)[j..j + |data|] == s[j..j + |data|];
    }
  }

  /** A pattern that occurs in the stream only as its suffix is not found
      (FindPastData answers -1), and once at least one more byte is committed
      it is found there, at the suffix's start. */
  lemma SuffixFoundAfterCommit(s: seq<byte>, p: seq<byte>, data: seq<byte>)
    requires |data| <= |s| && s[|s| - |data|..] == data
    requires forall j :: 0 <= j < |s| - |data| ==> !MatchAt(s, data, j)
    requires |p| >= 1
    ensures !MatchAt(s, data, |s| - |data|)
    ensures MatchAt(s + p, data, |s| - |data|)
    ensures IsFirstPast(s, data, -1)
    ensures IsFirstPast(s + p, data, |s| - |data|)
  {
    forall j | 0 <= j < |s| - |data|
      ensures !MatchAt(s + p, data, j)
    {
      assert !MatchAt(s, data, j);
      assert (s + p)[j..j + |data|] == s[j..j + |data|];
    }
    assert (s + p)[|s| - |data|..|s|] == s[|s| - |data|..];
    assert MatchAt(s + p, data, |s| - |data|);
  }

  /** The search result is determined: two answers meeting IsFirstPast agree. */
  lemma FirstPastUnique(s: seq<byte>, data: seq<byte>, r1: int, r2: int)
    requires IsFirstPast(s, data, r1) && IsFirstPast(s, data, r2)
    ensures r1 == r2
  {
  }
}
