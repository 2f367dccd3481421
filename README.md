# czip encoding buffer in Dafny

This is a model of the incremental encoding buffer of the czip calldata
compressor (`encoder/buffer.go`). A `Buffer` stages bytes in `pending` through
`WriteByte`, `WriteBytes` and `WriteInt`. `End` commits them to `commited`, the
output stream (the field keeps the source's spelling). That stream starts with
one reserved zero byte, the method slot of the compressor contract call. When
the original value of a commit is longer than two bytes, `End` also records it
in one of the two flag caches of the buffer's `References`: `usedFlags` for a
`Stateless` commit, or `usedStorageFlags` for a `WriteStorage` commit. The value
stored is the pre-commit stream length plus one. `FindPastData` looks for
earlier occurrences of a byte pattern in the stream. `Snapshot` and `Restore`
checkpoint the committed state and roll it back.

Files:
- `buffer.dfy`, module `Encoder`, models the Go file. It has the classes
  `References`, `Buffer` and `Snapshot`, the search predicates `MatchAt` and
  `IsFirstPast`, and the lemmas about search.
- `scenarios.dfy`, module `BufferScenarios`, holds client methods. They show
  what a caller can conclude from the contracts alone, on concrete inputs and
  on all inputs.

The object invariant `Consistent` is shared by a live buffer (`Buffer.Valid`)
and a snapshot (`Snapshot.Valid`). It says:
- the stream is non-empty;
- the stream starts with the zero byte;
- every cached value lies in `2..|commited| + 1`, so 0 never appears as a
  recorded position.

The Go methods have no preconditions, so no method of the model requires this
invariant. Each one states instead how it carries the invariant over
(`old(Valid()) ==> Valid()`, `Valid() == snap.Valid()`, …).

Three points where encoder/buffer.go may surprise a reader:
- `References.Copy` keeps `useContractStorage` (encoder/buffer.go:56). It leaves
  `Indexes` nil, so after `Snapshot` then `Restore` the buffer's `Indexes` is
  nil (`SnapshotRestoreRoundTrip`).
- A cache value is the length of the stream before the commit, plus one. That
  is the 1-based position of the first byte of the commit, not of its end.
- Nothing keeps a key out of the other cache. A value committed once as
  `Stateless` and once as `WriteStorage` is in both caches
  (`SameValueInBothCaches`).

## Model

| member | source | states |
|---|---|---|
| `Encoder.CopyFlags` | encoder/buffer.go:45-53 | the map built entry by entry has exactly the keys of the original, each with the original's value |
| `Encoder.References.constructor` | encoder/buffer.go:55-60 | the References literal holds exactly the given mode, Indexes reference and caches |
| `Encoder.References.Copy` | encoder/buffer.go:44-61 | returns a fresh References with caches equal to the original's and the same useContractStorage, with a nil Indexes; the original is not modified |
| `Encoder.Snapshot.constructor` | encoder/buffer.go:129-132 | the snapshot holds the given stream and References object |
| `Encoder.Buffer.constructor` | encoder/buffer.go:27-42 | NewBuffer: stream `[0]`, nothing pending, both caches empty, the given Indexes and storage flag kept, and the invariant holds |
| `Encoder.Buffer.Data` | encoder/buffer.go:63-65 | returns the committed stream, which on a valid buffer is non-empty and starts with the reserved zero byte |
| `Encoder.Buffer.Len` | encoder/buffer.go:67-69 | returns the committed length, at least 1 on a valid buffer |
| `Encoder.Buffer.WriteByte` | encoder/buffer.go:71-73 | appends the byte to pending; the stream, the References object and the invariant are unchanged |
| `Encoder.Buffer.WriteBytes` | encoder/buffer.go:75-77 | appends the bytes to pending in order; nothing else changes |
| `Encoder.Buffer.WriteInt` | encoder/buffer.go:79-81 | appends exactly one byte equal to `i mod 256`, with no error for large `i`; nothing else changes |
| `Encoder.Buffer.FindPastData` | encoder/buffer.go:83-91 | returns the least start of a window equal to the pattern that ends strictly before the last committed byte, or -1 exactly when there is none; an empty pattern gives 0; the buffer is not modified |
| `Encoder.Buffer.End` | encoder/buffer.go:93-111 | the stream becomes old stream ++ old pending, pending is emptied and the length grows by the old pending length. A value longer than 2 bytes gets the pre-commit length + 1 in usedFlags for Stateless, or in usedStorageFlags for WriteStorage, and the other cache is unchanged. ReadStorage, any other tag, or a value of at most 2 bytes leaves both caches unchanged. The invariant is kept |
| `Encoder.Buffer.Snapshot` | encoder/buffer.go:121-133 | returns a fresh snapshot with a fresh References: its stream and caches equal the buffer's, the storage flag is kept and Indexes is nil. The buffer is unchanged, and the snapshot is consistent exactly when the buffer is |
| `Encoder.Buffer.Restore` | encoder/buffer.go:135-138 | the buffer takes the snapshot's stream and the snapshot's References object itself; pending is untouched; the buffer is valid exactly when the snapshot is |
| `Encoder.Buffer.RestoreOwned` | encoder/buffer.go:135-138 | corrected Restore: takes the snapshot's stream and a fresh copy of its caches and storage flag, with a nil Indexes, so later commits cannot reach the snapshot; pending is untouched; the buffer is valid exactly when the snapshot is |
| `Encoder.MatchAtAppend` | encoder/buffer.go:84-85 | a window that matches still matches after more bytes are committed |
| `Encoder.FirstPastStable` | encoder/buffer.go:83-91 | an offset FindPastData returns stays the first match after any further commit |
| `Encoder.SuffixFoundAfterCommit` | encoder/buffer.go:84 | a pattern that occurs in the stream only as its suffix is not found (the search answers -1); once at least one more byte is committed, the search answers the suffix's start |
| `Encoder.FirstPastUnique` | encoder/buffer.go:83-91 | the search contract determines the answer: two answers meeting it are equal |
| `BufferScenarios.CommitThenSearch` | encoder/buffer.go:83-111 | new buffer, write `01 02 03 04`, commit a 4-byte value as Stateless: length 5, stream `00 01 02 03 04`, flag 2; `[2,3]` is found at 2 and the suffix `[3,4]` is not found |
| `BufferScenarios.SnapshotRestoreRoundTrip` | encoder/buffer.go:121-138 | Restore right after Snapshot gives back the stream, both caches and the storage flag, with pending unchanged and Indexes nil |
| `BufferScenarios.SpeculativeCommitDiscarded` | encoder/buffer.go:93-138 | snapshot, write, commit, then restore: the stream and both caches are as before the attempt |
| `BufferScenarios.EndLeavesDetachedSnapshot` | encoder/buffer.go:93-111 | a commit changes neither the stream nor the caches of a snapshot that does not share the buffer's References |
| `BufferScenarios.SharedSnapshotScenario` | encoder/buffer.go:135-138 | after Restore, commits write into the snapshot's caches; restoring the same snapshot again gives a 1-byte stream with a cache value of 5 (1-based position 5, past its end), so the restored buffer is not valid |
| `BufferScenarios.OwnedSnapshotScenario` | encoder/buffer.go:135-138 | with RestoreOwned, the same steps leave the snapshot's caches empty, and a second restore gives a valid 1-byte stream with empty caches |
| `BufferScenarios.SameValueInBothCaches` | encoder/buffer.go:99-106 | a value committed as Stateless and then as WriteStorage is recorded in both caches, with flags 2 and 3 |

## Findings

| source | as written | input that shows it | evidently intended | confidence | as-written member | corrected member |
|---|---|---|---|---|---|---|
| encoder/buffer.go:137 | `Restore` makes the buffer share the snapshot's References, so commits after a restore also change the snapshot's caches | NewBuffer; Snapshot s; Restore(s); WriteBytes([1,2,3]); End("ABC", Stateless); WriteByte(4); End("DEF", Stateless); Restore(s) gives a 1-byte stream whose usedFlags["DEF"] is 5, past its end | a snapshot keeps its own caches, so rolling back to it any number of times gives caches that point into the restored stream | medium, not executed (the callers are not part of this model; they may never restore one snapshot twice) | `BufferScenarios.SharedSnapshotScenario` | `Encoder.Buffer.RestoreOwned` |

## Left out

- The contents of `Indexes` (the address, 32-byte and 4-byte tables). This file only stores the reference and never reads it, so `Indexes` is an empty class and the model keeps only the possibly-nil reference.
- `Snapshot.SignatureLevel`: it is declared but never assigned in this file.
- Go slice capacity and shared backing arrays. `commited` and `pending` are values (`seq<byte>`). `Snapshot` copies into a new slice whose length equals its capacity, and `End` resets `Pending` to nil, so no later append can write through into a captured stream.
- `EncodeType` is defined outside this file. It is modelled only as the tags that select a cache, plus `Other` for every further variant.
- `bytes.Equal` is modelled as equality of byte sequences.
- `Encoder.Buffer.WriteInt` takes any natural number, not Go's bounded `uint`. On Go's range the byte written is the same, `i mod 256`.
- Iteration order of Go maps. `CopyFlags` picks keys in an unspecified order, and only the resulting map is specified.
- The higher-level encoder that decides what to write, and the contract-side decoder. Neither is part of this model.
