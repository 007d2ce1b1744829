/**
The two durable ends of epoch fencing: the fencer of a node with its 8-byte file
(internal/epoch/epoch.go), and the epoch table of the control plane with its JSON file
(cmd/controlplane/main.go). Files are objects of their own and outlive a process.
*/
module Epoch {
  import opened Wrappers

  // ----- the epoch file -----

  function Power256(n: nat): nat {
    if n == 0 then 1 else 256 * Power256(n - 1)
  }

  /** The last n bytes of a number, most significant first. */
  function BigEndian(x: nat, n: nat): (b: seq<byte>)
    ensures |b| == n
  {
    if n == 0 then [] else BigEndian(x / 256, n - 1) + [(x % 256) as byte]
  }

  function FromBigEndian(b: seq<byte>): nat {
    if b == [] then 0 else 256 * FromBigEndian(b[..|b| - 1]) + b[|b| - 1] as nat
  }

  lemma {:induction false} BigEndianRoundTrip(x: nat, n: nat)
    requires x < Power256(n)
    ensures FromBigEndian(BigEndian(x, n)) == x
  {
    if n > 0 {
      BigEndianRoundTrip(x / 256, n - 1);
      var b := BigEndian(x, n);
      assert b[..n - 1] == BigEndian(x / 256, n - 1);
    }
  }

  lemma {:induction false} FromBigEndianBound(b: seq<byte>)
    ensures FromBigEndian(b) < Power256(|b|)
  {
    if b != [] {
      FromBigEndianBound(b[..|b| - 1]);
    }
  }

  lemma EightBytes()
    ensures Power256(8) == TWO_TO_THE_64
  {
    assert Power256(2) == 0x1_0000;
    assert Power256(4) == 0x1_0000_0000;
    assert Power256(6) == 0x1_0000_0000_0000;
  }

  /** What `Load` makes of the file; a short or missing one reads as zero. */
  function FileEpoch(file: Option<seq<byte>>): (e: uint64)
  {
    if file.Some? && |file.value| >= 8 then
      EightBytes();
      FromBigEndianBound(file.value[..8]);
      FromBigEndian(file.value[..8])
    else 0
  }

  /** Loading a persisted epoch gives it back. */
  lemma {:induction false} PersistThenLoad(e: uint64)
    ensures FileEpoch(Some(BigEndian(e, 8))) == e
  {
    EightBytes();
    BigEndianRoundTrip(e, 8);
    assert BigEndian(e, 8)[..8] == BigEndian(e, 8);
  }

  // ----- the fencer of a node -----

  datatype FencerState = FencerState(seen: uint64, file: Option<seq<byte>>)

  function Loaded(file: Option<seq<byte>>): FencerState {
    FencerState(FileEpoch(file), file)
  }

  predicate Passes(s: FencerState, e: uint64) {
    e >= s.seen
  }

  /** `Check`: a newer epoch is adopted and written out, if the write succeeds. */
  function Checked(s: FencerState, e: uint64, persisted: bool): FencerState {
    if e > s.seen then FencerState(e, if persisted then Some(BigEndian(e, 8)) else s.file) else s
  }

  class EpochFile {
    var content: Option<seq<byte>>

    constructor ()
      ensures content == None
    {
      content := None;
    }
  }

  class Fencer {
    var seen: uint64
    const file: EpochFile

    ghost function State(): FencerState
      reads this, file
    {
      FencerState(seen, file.content)
    }

    /** `Load`. */
    constructor (file: EpochFile)
      ensures this.file == file && State() == Loaded(file.content)
    {
      this.file := file;
      seen := FileEpoch(file.content);
    }

    method Check(e: uint64, persists: bool) returns (ok: bool, current: uint64)
      modifies this, file
      ensures ok == Passes(old(State()), e)
      ensures State() == Checked(old(State()), e, persists)
      ensures current == seen && (ok ==> seen == e) && (!ok ==> e < seen)
    {
      if e < seen {
        return false, seen;
      }
      if e > seen {
        seen := e;
        if persists {
          file.content := Some(BigEndian(seen, 8));
        }
      }
      return true, seen;
    }
  }

  // ----- the epoch table of the control plane -----

  const DEFAULT_PARTITION := "_default"

  type Epochs = map<string, uint64>

  datatype StoreState = StoreState(epochs: Epochs, file: Option<Epochs>)

  function Current(epochs: Epochs, partition: string): uint64 {
    if partition in epochs then epochs[partition] else 0
  }

  function LoadedStore(file: Option<Epochs>): StoreState {
    StoreState(if file.Some? then file.value else map[], file)
  }

  /** `bump`: the increment is on `uint64`, the whole table is written out. */
  function Bumped(s: StoreState, partition: string, persisted: bool): StoreState {
    var epochs := s.epochs[partition := (Current(s.epochs, partition) + 1) % TWO_TO_THE_64];
    StoreState(epochs, if persisted then Some(epochs) else s.file)
  }

  class EpochsFile {
    var content: Option<Epochs>

    constructor ()
      ensures content == None
    {
      content := None;
    }
  }

  class EpochStore {
    var epochs: Epochs
    const file: EpochsFile

    ghost function State(): StoreState
      reads this, file
    {
      StoreState(epochs, file.content)
    }

    /** `loadEpochStore`. */
    constructor (file: EpochsFile)
      ensures this.file == file && State() == LoadedStore(file.content)
    {
      this.file := file;
      epochs := if file.content.Some? then file.content.value else map[];
    }

    method Bump(partition: string, persists: bool) returns (e: uint64)
      modifies this, file
      ensures State() == Bumped(old(State()), partition, persists)
      ensures e == Current(epochs, partition)
    {
      e := (Current(epochs, partition) + 1) % TWO_TO_THE_64;
      epochs := epochs[partition := e];
      if persists {
        file.content := Some(epochs);
      }
    }
  }
}
