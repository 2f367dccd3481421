/**
 Clients of the encoding buffer: what a caller can conclude from the
 contracts in module Encoder alone, on concrete inputs and on all inputs.
 */
module BufferScenarios {
  import opened Encoder

  /** Commit four bytes for a four-byte original value on a new buffer, then
      search the stream. The suffix [3, 4] ends on the last byte and is not found. */
  method CommitThenSearch() returns (len: nat, data: seq<byte>, flag: int, found: int, suffix: int)
    ensures len == 5 && data == [0, 1, 2, 3, 4]
    ensures flag == 2
    ensures found == 2 && suffix == -1
  {
    var b := new Buffer(null, false);
    b.WriteBytes([1, 2, 3, 4]);
    b.End([65, 66, 67, 68], Stateless);
    len := b.Len();
    data := b.Data();
    flag := b.refs.usedFlags[[65, 66, 67, 68]];
    found := b.FindPastData([2, 3]);
    assert !MatchAt(data, [2, 3], 0) && !MatchAt(data, [2, 3], 1);
    assert IsFirstPast(data, [2, 3], 2);
    FirstPastUnique(data, [2, 3], found, 2);
    suffix := b.FindPastData([3, 4]);
    assert data[0..2] != [3, 4] && data[1..3] != [3, 4] && data[2..4] != [3, 4];
  }

  /** A snapshot restored at once gives back the committed stream and both
      caches; the pending bytes are untouched and the Indexes reference is lost. */
  method SnapshotRestoreRoundTrip(b: Buffer)
    modifies b
    ensures b.commited == old(b.commited) && b.pending == old(b.pending)
    ensures b.refs.usedFlags == old(b.refs.usedFlags)
    ensures b.refs.usedStorageFlags == old(b.refs.usedStorageFlags)
    ensures b.refs.useContractStorage == old(b.refs.useContractStorage)
    ensures b.refs.indexes == null
    ensures b.Valid() == old(b.Valid())
  {
    var s := b.Snapshot();
    b.Restore(s);
  }

  /** A speculative write and commit followed by a restore leaves the buffer's
      committed state exactly as it was before the attempt. */
  method SpeculativeCommitDiscarded(b: Buffer, w: seq<byte>, uncompressed: seq<byte>, t: EncodeType)
    modifies b, b.refs
    ensures b.commited == old(b.commited) && b.pending == []
    ensures b.refs.usedFlags == old(b.refs.usedFlags)
    ensures b.refs.usedStorageFlags == old(b.refs.usedStorageFlags)
    ensures b.Valid() == old(b.Valid())
  {
    var s := b.Snapshot();
    b.WriteBytes(w);
    b.End(uncompressed, t);
    b.Restore(s);
  }

  /** A commit leaves a snapshot alone as long as the snapshot does not share
      the buffer's References object (as after Snapshot, but not after Restore). */
  method EndLeavesDetachedSnapshot(b: Buffer, s: Snapshot, uncompressed: seq<byte>, t: EncodeType)
    requires b.refs != s.refs
    modifies b, b.refs
    ensures s.commited == old(s.commited) && s.refs == old(s.refs)
    ensures s.refs.usedFlags == old(s.refs.usedFlags)
    ensures s.refs.usedStorageFlags == old(s.refs.usedStorageFlags)
    ensures s.Valid() == old(s.Valid())
  {
    b.End(uncompressed, t);
  }

  /** As written, Restore hands the snapshot's References to the buffer, so
      the next commits land in the snapshot's caches: restoring the same
      snapshot again gives a 1-byte stream whose cache holds 5, a 1-based
      position past its end, so the restored buffer is not Valid. */
  method SharedSnapshotScenario() returns (snapLen: nat, snapFlag: int, restoredLen: nat, restoredFlag: int, ghost restoredValid: bool)
    ensures snapLen == 1 && snapFlag == 5
    ensures restoredLen == 1 && restoredFlag == 5
    ensures !restoredValid
  {
    var b := new Buffer(null, false);
    var s := b.Snapshot();
    b.Restore(s);
    b.WriteBytes([1, 2, 3]);
    b.End([65, 66, 67], Stateless);
    b.WriteByte(4);
    b.End([68, 69, 70], Stateless);
    snapLen := |s.commited|;
    snapFlag := s.refs.usedFlags[[68, 69, 70]];
    b.Restore(s);
    restoredLen := b.Len();
    restoredFlag := b.refs.usedFlags[[68, 69, 70]];
    restoredValid := b.Valid();
  }

  /** The same steps with RestoreOwned: the snapshot keeps the empty caches it
      captured, and restoring it again gives a consistent buffer. */
  method OwnedSnapshotScenario() returns (snapFlags: Flags, restoredLen: nat, restoredFlags: Flags, ghost restoredValid: bool)
    ensures snapFlags == map[]
    ensures restoredLen == 1 && restoredFlags == map[]
    ensures restoredValid
  {
    var b := new Buffer(null, false);
    var s := b.Snapshot();
    b.RestoreOwned(s);
    b.WriteBytes([1, 2, 3]);
    b.End([65, 66, 67], Stateless);
    b.WriteByte(4);
    b.End([68, 69, 70], Stateless);
    snapFlags := s.refs.usedFlags;
    b.RestoreOwned(s);
    restoredLen := b.Len();
    restoredFlags := b.refs.usedFlags;
    restoredValid := b.Valid();
  }

  /** The two caches are not disjoint: the same original value committed once
      as Stateless and once as WriteStorage is recorded in both. */
  method SameValueInBothCaches() returns (flag: int, storageFlag: int)
    ensures flag == 2 && storageFlag == 3
  {
    var b := new Buffer(null, true);
    b.WriteByte(7);
    b.End([65, 66, 67], Stateless);
    b.WriteByte(7);
    b.End([65, 66, 67], WriteStorage);
    flag := b.refs.usedFlags[[65, 66, 67]];
    storageFlag := b.refs.usedStorageFlags[[65, 66, 67]];
  }
}
