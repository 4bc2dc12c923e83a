/** Streamed upload of a base image: chunks go to a temporary file, which replaces the
    image by one atomic rename.  Catalogue scans may read the folder between any two
    steps. */
module ImageUpload {
  import opened Types

  type Byte = bv8
  type Bytes = seq<Byte>

  function Concat(chunks: seq<Bytes>): Bytes {
    if chunks == [] then [] else Concat(chunks[..|chunks| - 1]) + chunks[|chunks| - 1]
  }

  /** The chunks up to the first empty one, which ends the stream. */
  function Stream(chunks: seq<Bytes>): seq<Bytes>
    decreases |chunks|
  {
    if chunks == [] || chunks[0] == [] then [] else [chunks[0]] + Stream(chunks[1..])
  }

  /** `Interrupted` is an exception from reading the request. */
  datatype Outcome = Published(size: nat) | TooLarge | Interrupted

  /** A folder with `base.qcow2` and `base.qcow2.uploading`; every file operation records
      what a reader of the image would see after it. */
  class ImageFolder {
    var base: Option<Bytes>
    var uploading: Option<Bytes>
    ghost var seen: seq<Option<Bytes>>

    constructor ()
      ensures base == None && uploading == None && seen == []
    {
      base := None;
      uploading := None;
      seen := [];
    }

    method OpenTemporary()
      modifies this
      ensures uploading == Some([]) && base == old(base) && seen == old(seen) + [base]
    {
      uploading := Some([]);
      seen := seen + [base];
    }

    method WriteTemporary(data: Bytes)
      requires uploading.Some?
      modifies this
      ensures uploading == Some(old(uploading).value + data) && base == old(base) && seen == old(seen) + [base]
    {
      uploading := Some(uploading.value + data);
      seen := seen + [base];
    }

    method RemoveTemporary()
      modifies this
      ensures uploading == None && base == old(base) && seen == old(seen) + [base]
    {
      uploading := None;
      seen := seen + [base];
    }

    method ReplaceBase()
      requires uploading.Some?
      modifies this
      ensures base == old(uploading) && uploading == None && seen == old(seen) + [base]
    {
      base, uploading := uploading, None;
      seen := seen + [base];
    }
  }

  /** `failAt`, when in the stream, is the chunk whose read raises. */
  method UploadBaseImage(folder: ImageFolder, chunks: seq<Bytes>, cap: nat, failAt: Option<nat>)
    returns (outcome: Outcome)
    modifies folder
    ensures old(folder.seen) <= folder.seen
    // Every reader sees the previous image or, after success, the whole new one.
    ensures forall i :: |old(folder.seen)| <= i < |folder.seen| ==>
      folder.seen[i] == old(folder.base) || (outcome.Published? && folder.seen[i] == Some(Concat(Stream(chunks))))
    ensures outcome.Published? ==>
      && folder.base == Some(Concat(Stream(chunks))) && folder.uploading == None
      && outcome.size == |Concat(Stream(chunks))| <= cap
    ensures outcome.TooLarge? ==> folder.base == old(folder.base) && folder.uploading == None
    ensures outcome.Interrupted? ==>
      && failAt.Some? && failAt.value <= |Stream(chunks)|
      && folder.base == old(folder.base)
      && folder.uploading == Some(Concat(Stream(chunks)[..failAt.value]))
    // Which of the three it is.
    ensures outcome.Interrupted? <==>
      failAt.Some? && failAt.value <= |Stream(chunks)| && |Concat(Stream(chunks)[..failAt.value])| <= cap
    ensures outcome.TooLarge? <==> !outcome.Interrupted? && |Concat(Stream(chunks))| > cap
  {
    ghost var stream := Stream(chunks);
    StreamPrefix(chunks);
    var size: nat := 0;
    var k: nat := 0;
    folder.OpenTemporary();
    while k < |chunks| && chunks[k] != []
      invariant k <= |stream| && folder.base == old(folder.base)
      invariant folder.uploading == Some(Concat(stream[..k])) && size == |Concat(stream[..k])| <= cap
      invariant failAt.Some? ==> k <= failAt.value
      invariant old(folder.seen) <= folder.seen
      invariant forall i :: |old(folder.seen)| <= i < |folder.seen| ==> folder.seen[i] == old(folder.base)
      decreases |chunks| - k
    {
      if failAt == Some(k) {
        return Interrupted;
      }
      var chunk := chunks[k];
      size := size + |chunk|;
      assert stream[..k + 1][..k] == stream[..k];
      if size > cap {
        folder.RemoveTemporary();
        StaysOverCap(stream, k + 1, failAt);
        return TooLarge;
      }
      folder.WriteTemporary(chunk);
      k := k + 1;
    }
    assert stream[..k] == stream;
    if failAt == Some(k) {
      return Interrupted;
    }
    folder.ReplaceBase();
    outcome := Published(size);
  }

  /** The stream is the longest prefix without an empty chunk. */
  lemma {:induction false} StreamPrefix(chunks: seq<Bytes>)
    ensures Stream(chunks) <= chunks
    ensures forall i :: 0 <= i < |Stream(chunks)| ==> chunks[i] != []
    ensures |Stream(chunks)| == |chunks| || chunks[|Stream(chunks)|] == []
    decreases |chunks|
  {
    if chunks == [] || chunks[0] == [] {
    } else {
      StreamPrefix(chunks[1..]);
    }
  }

  /** What has been written after `k` chunks is a prefix of the whole. */
  lemma {:induction false} ConcatPrefix(chunks: seq<Bytes>, k: nat)
    requires k <= |chunks|
    ensures Concat(chunks[..k]) <= Concat(chunks)
    decreases |chunks|
  {
    if k == |chunks| {
      assert chunks[..k] == chunks;
    } else {
      var n := |chunks| - 1;
      ConcatPrefix(chunks[..n], k);
      assert chunks[..n][..k] == chunks[..k];
    }
  }

  /** Once over the cap, the whole stream is, and so is every longer part of it. */
  lemma StaysOverCap(stream: seq<Bytes>, k: nat, failAt: Option<nat>)
    requires k <= |stream|
    ensures |Concat(stream)| >= |Concat(stream[..k])|
    ensures failAt.Some? && k <= failAt.value <= |stream| ==> |Concat(stream[..failAt.value])| >= |Concat(stream[..k])|
  {
    ConcatPrefix(stream, k);
    if failAt.Some? && k <= failAt.value <= |stream| {
      ConcatPrefix(stream[..failAt.value], k);
      assert stream[..failAt.value][..k] == stream[..k];
    }
  }

  // ---------- Several uploads at once ----------

  /** An upload writes its bytes in order from the beginning, so the place of a byte in the
      file is its place in the stream: it is enough to know whose byte it is.  `Hole` is the
      zero byte that fills a gap. */
  type UploadId = nat

  datatype Mark = Hole | Of(upload: UploadId)

  type File = seq<Mark>

  /** An open file and the position of the next write. */
  datatype Handle = Handle(file: nat, position: nat)

  /** All files of the folder; the names `base.qcow2.uploading` and `base.qcow2` lead to at
      most one each.  A handle leads to its file whatever becomes of the name. */
  datatype Disk = Disk(files: seq<File>, temporary: Option<nat>, base: Option<nat>, handles: map<UploadId, Handle>)

  /** `Rename` and `Remove` come after the upload has closed its file; `Abandon` is an
      exception that closes it and leaves the name. */
  datatype Action =
    | Open(upload: UploadId)
    | Write(upload: UploadId, length: nat)
    | Rename(upload: UploadId)
    | Remove(upload: UploadId)
    | Abandon(upload: UploadId)

  predicate WellFormed(d: Disk) {
    && (d.temporary.Some? ==> d.temporary.value < |d.files| && d.base != d.temporary)
    && (d.base.Some? ==> d.base.value < |d.files|)
    && (forall u :: u in d.handles ==> d.handles[u].file < |d.files|)
  }

  predicate Enabled(d: Disk, a: Action) {
    if a.Open? then a.upload !in d.handles else a.upload in d.handles && (a.Write? ==> a.length > 0)
  }

  /** Writing at a position beyond the end leaves a hole. */
  function Overwritten(file: File, position: nat, length: nat, u: UploadId): File {
    var end := if position + length > |file| then position + length else |file|;
    seq(end, i requires 0 <= i < end =>
      if position <= i < position + length then Of(u) else if i < |file| then file[i] else Hole)
  }

  /** Opening for writing empties the file that has the temporary name, or makes one; a
      rename or removal acts on whatever file has the name by then, and fails on none. */
  function Step(d: Disk, a: Action): (d': Disk)
    requires WellFormed(d) && Enabled(d, a)
    ensures WellFormed(d') && |d'.files| >= |d.files|
  {
    match a
    case Open(u) =>
      if d.temporary.Some? then
        d.(files := d.files[d.temporary.value := []], handles := d.handles[u := Handle(d.temporary.value, 0)])
      else
        d.(files := d.files + [[]], temporary := Some(|d.files|), handles := d.handles[u := Handle(|d.files|, 0)])
    case Write(u, n) =>
      var Handle(f, position) := d.handles[u];
      d.(files := d.files[f := Overwritten(d.files[f], position, n, u)],
         handles := d.handles[u := Handle(f, position + n)])
    case Rename(u) =>
      if d.temporary.Some? then d.(base := d.temporary, temporary := None, handles := d.handles - {u})
      else d.(handles := d.handles - {u})
    case Remove(u) => d.(temporary := None, handles := d.handles - {u})
    case Abandon(u) => d.(handles := d.handles - {u})
  }

  ghost predicate Run(d: Disk, acts: seq<Action>)
    requires WellFormed(d)
    decreases acts
  {
    acts == [] || (Enabled(d, acts[0]) && Run(Step(d, acts[0]), acts[1..]))
  }

  ghost function After(d: Disk, acts: seq<Action>): (end: Disk)
    requires WellFormed(d) && Run(d, acts)
    ensures WellFormed(end) && |end.files| >= |d.files|
    decreases acts
  {
    if acts == [] then d else After(Step(d, acts[0]), acts[1..])
  }

  function Whole(u: UploadId, n: nat): File {
    seq(n, _ => Of(u))
  }

  /** The temporary name leads to the upload's own file, which holds exactly what it has
      written: renaming now publishes that. */
  predicate HoldsOwn(d: Disk, u: UploadId)
    requires WellFormed(d)
  {
    u in d.handles && d.temporary == Some(d.handles[u].file)
    && d.files[d.handles[u].file] == Whole(u, d.handles[u].position)
  }

  /** The upload itself only writes. */
  predicate OnlyWrites(u: UploadId, acts: seq<Action>) {
    forall i :: 0 <= i < |acts| && acts[i].upload == u ==> acts[i].Write?
  }

  predicate SomeOpen(acts: seq<Action>) {
    exists i :: 0 <= i < |acts| && acts[i].Open?
  }

  /** What another upload may do to one that has the file open, and has `total` bytes in
      all: empty the file before anything is written; or write only where the upload has
      yet to write itself, unless what goes past its end is emptied away later; but not
      take the name away. */
  predicate HarmlessStep(d: Disk, a: Action, rest: seq<Action>, u: UploadId, total: nat)
    requires Enabled(d, a) && u in d.handles
  {
    match a
    case Open(_) => d.handles[u].position == 0
    case Write(v, n) =>
      || v == u || d.handles[v].file != d.handles[u].file
      || (d.handles[v].position >= d.handles[u].position
          && (d.handles[v].position + n <= total || SomeOpen(rest)))
    case Rename(_) => false
    case Remove(_) => false
    case Abandon(_) => true
  }

  ghost predicate Harmless(d: Disk, acts: seq<Action>, u: UploadId, total: nat)
    requires WellFormed(d) && Run(d, acts) && OnlyWrites(u, acts) && u in d.handles
    decreases acts
  {
    assert acts != [] ==> OnlyWrites(u, acts[1..]) by { RestOnlyWrites(u, acts); }
    acts == [] ||
    (HarmlessStep(d, acts[0], acts[1..], u, total) && Harmless(Step(d, acts[0]), acts[1..], u, total))
  }

  lemma RestOnlyWrites(u: UploadId, acts: seq<Action>)
    requires OnlyWrites(u, acts)
    ensures acts != [] ==> OnlyWrites(u, acts[1..]) && (acts[0].upload == u ==> acts[0].Write?)
  {
    if acts != [] {
      assert forall i :: 0 <= i < |acts[1..]| ==> acts[1..][i] == acts[i + 1];
    }
  }

  lemma SomeOpenSplits(acts: seq<Action>)
    requires acts != []
    ensures SomeOpen(acts) <==> acts[0].Open? || SomeOpen(acts[1..])
  {
    if acts[0].Open? {
    } else if SomeOpen(acts) {
      var i :| 0 <= i < |acts| && acts[i].Open?;
      assert acts[1..][i - 1].Open?;
    } else {
      assert forall i :: 0 <= i < |acts[1..]| ==> acts[1..][i] == acts[i + 1];
    }
  }

  /** Everything the upload has written is still in its file, under the temporary name. */
  predicate Sound(d: Disk, u: UploadId)
    requires WellFormed(d)
  {
    && u in d.handles && d.temporary == Some(d.handles[u].file)
    && var Handle(f, position) := d.handles[u];
       position <= |d.files[f]| && forall i :: 0 <= i < position ==> d.files[f][i] == Of(u)
  }

  /** Damage is never repaired: an upload does not write again what it has written. */
  lemma DamageStays(d: Disk, a: Action, u: UploadId)
    requires WellFormed(d) && Enabled(d, a) && u in d.handles && !Sound(d, u) && (a.upload == u ==> a.Write?)
    ensures u in Step(d, a).handles && !Sound(Step(d, a), u)
  {
    var Handle(f, position) := d.handles[u];
    if d.temporary == Some(f) {
      var i :| 0 <= i < position && (i < |d.files[f]| ==> d.files[f][i] != Of(u)) by {
        if position > |d.files[f]| {
          assert |d.files[f]| < position;
        }
      }
      var file' := Step(d, a).files[f];
      assert i < |file'| ==> file'[i] != Of(u);
    }
  }

  lemma {:induction false} DamageStaysAlong(d: Disk, acts: seq<Action>, u: UploadId)
    requires WellFormed(d) && Run(d, acts) && u in d.handles && !Sound(d, u) && OnlyWrites(u, acts)
    ensures u in After(d, acts).handles && !Sound(After(d, acts), u)
    decreases acts
  {
    RestOnlyWrites(u, acts);
    if acts == [] {
    } else {
      DamageStays(d, acts[0], u);
      DamageStaysAlong(Step(d, acts[0]), acts[1..], u);
    }
  }

  lemma OwnIsSound(d: Disk, u: UploadId)
    requires WellFormed(d) && u in d.handles
    ensures HoldsOwn(d, u) <==> Sound(d, u) && |d.files[d.handles[u].file]| <= d.handles[u].position
  {
    var Handle(f, position) := d.handles[u];
    if Sound(d, u) && |d.files[f]| <= position {
      assert d.files[f] == Whole(u, position);
    }
  }

  /** How one step changes the length of the upload's file, when it does no damage. */
  lemma StepIsSoundIff(d: Disk, a: Action, u: UploadId, rest: seq<Action>, total: nat)
    requires WellFormed(d) && Enabled(d, a) && Sound(d, u) && (a.upload == u ==> a.Write?)
    requires u in Step(d, a).handles ==> Step(d, a).handles[u].position <= total
    ensures var d' := Step(d, a);
            && u in d'.handles && d'.handles[u].file == d.handles[u].file
            && (HarmlessStep(d, a, rest, u, total) ==> Sound(d', u))
            && (Sound(d', u) ==>
                  (&& (|d.files[d.handles[u].file]| <= total || SomeOpen([a] + rest))
                   && HarmlessStep(d, a, rest, u, total) <==>
                   (|d'.files[d.handles[u].file]| <= total || SomeOpen(rest))))
  {
    SomeOpenSplits([a] + rest);
    assert ([a] + rest)[1..] == rest;
    var Handle(f, position) := d.handles[u];
    var (file, file') := (d.files[f], Step(d, a).files[f]);
    if a.Write? && d.handles[a.upload].file == f {
      var b := d.handles[a.upload].position;
      assert |file'| == if b + a.length > |file| then b + a.length else |file|;
      assert file'[b] == Of(a.upload);
    }
  }

  lemma {:induction false} PositionGrows(d: Disk, acts: seq<Action>, u: UploadId)
    requires WellFormed(d) && Run(d, acts) && u in d.handles && OnlyWrites(u, acts)
    ensures var end := After(d, acts);
            && u in end.handles && end.handles[u].file == d.handles[u].file
            && end.handles[u].position >= d.handles[u].position
    decreases acts
  {
    RestOnlyWrites(u, acts);
    if acts == [] {
    } else {
      PositionGrows(Step(d, acts[0]), acts[1..], u);
    }
  }

  lemma {:induction false} SoundEndsOwnIff(d: Disk, acts: seq<Action>, u: UploadId, total: nat)
    requires WellFormed(d) && Run(d, acts) && Sound(d, u) && OnlyWrites(u, acts)
    requires u in After(d, acts).handles && After(d, acts).handles[u].position == total
    ensures HoldsOwn(After(d, acts), u) <==>
      (|d.files[d.handles[u].file]| <= total || SomeOpen(acts)) && Harmless(d, acts, u, total)
    decreases acts
  {
    RestOnlyWrites(u, acts);
    if acts == [] {
      OwnIsSound(d, u);
    } else {
      var (a, rest, d') := (acts[0], acts[1..], Step(d, acts[0]));
      PositionGrows(d', rest, u);
      StepIsSoundIff(d, a, u, rest, total);
      assert [a] + rest == acts;
      if Sound(d', u) {
        SoundEndsOwnIff(d', rest, u, total);
      } else {
        DamageStaysAlong(d', rest, u);
        OwnIsSound(After(d', rest), u);
      }
    }
  }

  /** In every interleaving of any number of uploads: the upload that opens the file now
      will, when it renames it, publish its own file holding exactly its own bytes, if and
      only if every step of another upload in between is harmless. */
  lemma UploadPublishesOwnIff(d: Disk, u: UploadId, acts: seq<Action>)
    requires WellFormed(d) && Enabled(d, Open(u))
    requires Run(Step(d, Open(u)), acts) && OnlyWrites(u, acts)
    ensures var end := After(Step(d, Open(u)), acts);
            && u in end.handles
            && (HoldsOwn(end, u) <==> Harmless(Step(d, Open(u)), acts, u, end.handles[u].position))
  {
    PositionGrows(Step(d, Open(u)), acts, u);
    SoundEndsOwnIff(Step(d, Open(u)), acts, u, After(Step(d, Open(u)), acts).handles[u].position);
  }

  /** Only file `f` holds bytes of the upload. */
  predicate OnlyIn(d: Disk, u: UploadId, f: nat) {
    forall g :: 0 <= g < |d.files| && g != f ==> Of(u) !in d.files[g]
  }

  lemma StepKeepsOnlyIn(d: Disk, a: Action, u: UploadId)
    requires WellFormed(d) && Enabled(d, a) && u in d.handles && OnlyIn(d, u, d.handles[u].file)
    requires a.upload == u ==> a.Write?
    ensures OnlyIn(Step(d, a), u, d.handles[u].file)
  {
    var d' := Step(d, a);
    if a.Write? {
      var f := d.handles[a.upload].file;
      forall g | 0 <= g < |d'.files| && g != d.handles[u].file
        ensures Of(u) !in d'.files[g]
      {
        assert g != f ==> d'.files[g] == d.files[g];
        assert g == f ==> forall i :: 0 <= i < |d'.files[g]| ==> d'.files[g][i] != Of(u);
      }
    }
  }

  lemma {:induction false} StaysOnlyIn(d: Disk, acts: seq<Action>, u: UploadId)
    requires WellFormed(d) && Run(d, acts) && u in d.handles && OnlyWrites(u, acts)
    requires OnlyIn(d, u, d.handles[u].file)
    ensures OnlyIn(After(d, acts), u, d.handles[u].file)
    decreases acts
  {
    RestOnlyWrites(u, acts);
    if acts == [] {
    } else {
      StepKeepsOnlyIn(d, acts[0], u);
      StaysOnlyIn(Step(d, acts[0]), acts[1..], u);
    }
  }

  /** What a rename would publish now, whoever makes it. */
  function Renamed(d: Disk): Option<File>
    requires WellFormed(d)
  {
    if d.temporary.Some? then Some(d.files[d.temporary.value]) else None
  }

  /** So an upload that has written something publishes exactly its bytes, through whatever
      file, if and only if every step of the others was harmless.  (An empty upload publishes
      an empty file whenever the file that has the name is empty, be it another's.) */
  lemma UploadPublishesBytesIff(d: Disk, u: UploadId, acts: seq<Action>)
    requires WellFormed(d) && Enabled(d, Open(u)) && forall g :: 0 <= g < |d.files| ==> Of(u) !in d.files[g]
    requires Run(Step(d, Open(u)), acts) && OnlyWrites(u, acts)
    ensures var end := After(Step(d, Open(u)), acts);
            && u in end.handles
            && var n := end.handles[u].position;
               n > 0 ==> (Renamed(end) == Some(Whole(u, n)) <==> Harmless(Step(d, Open(u)), acts, u, n))
  {
    var ready := Step(d, Open(u));
    UploadPublishesOwnIff(d, u, acts);
    PositionGrows(ready, acts, u);
    StaysOnlyIn(ready, acts, u);
    var end := After(ready, acts);
    var n := end.handles[u].position;
    if n > 0 && Renamed(end) == Some(Whole(u, n)) {
      assert Whole(u, n)[0] == Of(u);
    }
  }

  /** The bytes of a file, when the `i`-th byte of each stream is given. */
  function Rendered(file: File, streams: (UploadId, nat) -> Byte): Bytes {
    seq(|file|, i requires 0 <= i < |file| => if file[i].Of? then streams(file[i].upload, i) else 0)
  }

  /** Only a file that is wholly the upload's has the upload's bytes whatever the uploads
      contain. */
  lemma WholeIffSameBytes(file: File, u: UploadId, n: nat)
    ensures file == Whole(u, n) <==>
      forall streams: (UploadId, nat) -> Byte :: Rendered(file, streams) == Rendered(Whole(u, n), streams)
  {
    if forall streams: (UploadId, nat) -> Byte :: Rendered(file, streams) == Rendered(Whole(u, n), streams) {
      var streams: (UploadId, nat) -> Byte := (v, _) => if v == u then 1 else 0;
      assert Rendered(file, streams) == Rendered(Whole(u, n), streams);
      assert |Rendered(file, streams)| == |file| && |Rendered(Whole(u, n), streams)| == n;
      forall i | 0 <= i < n
        ensures file[i] == Of(u)
      {
        assert Rendered(Whole(u, n), streams)[i] == 1;
      }
      assert file == Whole(u, n);
    }
  }

  // ---------- After the rename ----------

  predicate NoneWriteTo(d: Disk, f: nat) {
    forall v :: v in d.handles ==> d.handles[v].file != f
  }

  /** A published file that no upload still has open never changes again. */
  lemma {:induction false} ClosedFileStays(d: Disk, acts: seq<Action>, f: nat)
    requires WellFormed(d) && Run(d, acts) && f < |d.files| && d.temporary != Some(f) && NoneWriteTo(d, f)
    ensures After(d, acts).files[f] == d.files[f]
    decreases acts
  {
    if acts == [] {
    } else {
      ClosedFileStays(Step(d, acts[0]), acts[1..], f);
    }
  }

  ghost predicate StaysForGood(d: Disk, f: nat)
    requires WellFormed(d) && f < |d.files|
  {
    forall acts :: Run(d, acts) ==> After(d, acts).files[f] == d.files[f]
  }

  /** What an upload has published is safe from then on, if and only if no other upload
      still has the file open when it is renamed. */
  lemma PublishedStaysIff(d: Disk, u: UploadId, n: nat)
    requires WellFormed(d) && d.base.Some? && d.files[d.base.value] == Whole(u, n) && u !in d.handles
    ensures StaysForGood(d, d.base.value) <==> NoneWriteTo(d, d.base.value)
  {
    var f := d.base.value;
    if NoneWriteTo(d, f) {
      forall acts | Run(d, acts)
        ensures After(d, acts).files[f] == d.files[f]
      {
        ClosedFileStays(d, acts, f);
      }
    } else {
      var v :| v in d.handles && d.handles[v].file == f;
      var d' := Step(d, Write(v, 1));
      assert [Write(v, 1)][1..] == [] && Run(d', []) && After(d', []) == d';
      assert Run(d, [Write(v, 1)]) && After(d, [Write(v, 1)]) == d';
      assert d'.files[f][d.handles[v].position] == Of(v);
    }
  }

  // ---------- One upload at a time ----------

  /** No other upload has the folder's temporary file open, or opens, renames or removes it. */
  predicate Undisturbed(d: Disk, u: UploadId, acts: seq<Action>) {
    && (forall v :: v in d.handles ==> d.temporary != Some(d.handles[v].file))
    && (forall i :: 0 <= i < |acts| && acts[i].upload != u ==> acts[i].Write? || acts[i].Abandon?)
  }

  lemma {:induction false} UndisturbedIsHarmless(d: Disk, u: UploadId, acts: seq<Action>, total: nat)
    requires WellFormed(d) && Run(d, acts) && OnlyWrites(u, acts) && u in d.handles
    requires forall v :: v in d.handles && v != u ==> d.handles[v].file != d.handles[u].file
    requires forall i :: 0 <= i < |acts| && acts[i].upload != u ==> acts[i].Write? || acts[i].Abandon?
    ensures Harmless(d, acts, u, total)
    ensures var end := After(d, acts);
            u in end.handles && forall v :: v in end.handles && v != u ==> end.handles[v].file != end.handles[u].file
    decreases acts
  {
    RestOnlyWrites(u, acts);
    if acts == [] {
    } else {
      assert forall i :: 0 <= i < |acts[1..]| ==> acts[1..][i] == acts[i + 1];
      assert acts[0].upload == u ==> acts[0].Write?;
      UndisturbedIsHarmless(Step(d, acts[0]), u, acts[1..], total);
    }
  }

  /** With one upload of the folder at a time, the upload publishes exactly its bytes, and
      they stay as they are until another rename replaces them. */
  lemma OneUploadAtATime(d: Disk, u: UploadId, acts: seq<Action>)
    requires WellFormed(d) && Enabled(d, Open(u))
    requires Run(Step(d, Open(u)), acts) && OnlyWrites(u, acts) && Undisturbed(d, u, acts)
    ensures var end := After(Step(d, Open(u)), acts);
            && u in end.handles
            && var (f, n, published) := (end.handles[u].file, end.handles[u].position, Step(end, Rename(u)));
               && f < |published.files| && published.base == Some(f) && published.files[f] == Whole(u, n)
               && StaysForGood(published, f)
  {
    var ready := Step(d, Open(u));
    PositionGrows(ready, acts, u);
    UndisturbedIsHarmless(ready, u, acts, After(ready, acts).handles[u].position);
    UploadPublishesOwnIff(d, u, acts);
    var end := After(ready, acts);
    PublishedStaysIff(Step(end, Rename(u)), u, end.handles[u].position);
  }
}
