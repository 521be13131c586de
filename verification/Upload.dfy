/** One upload as the code runs it (uploadStorePath, checkUploadOverwrite and dump in upload.go), and what
    uploads one after another do to an entry of the bucket. */
module Upload {
  import opened Sequences
  import opened StoreObjects
  import opened NarInfos
  import opened Publication

  // ---- an uploader of the protocol left to itself ----

  function Rank(pc: Pc): nat {
    match pc
    case Start => 5
    case Dumping => 4
    case WritingNar(_, _, _) => 3
    case WritingListing(_, _) => 2
    case WritingInfo(_, _) => 1
    case Merging(_, _) => 1
    case Ended(_) => 0
  }

  function RunAlone(codec: Codec, bucket: Objects, job: Job, pc: Pc, env: Env): (Objects, Outcome)
    decreases Rank(pc)
  {
    match pc
    case Ended(outcome) => (bucket, outcome)
    case _ =>
      var (bucket', pc') := Advance(codec, bucket, job, pc, env);
      RunAlone(codec, bucket', job, pc', env)
  }

  /** Running alone is one of the runs of the protocol, so everything proved of those holds of it. */
  lemma {:induction false} RunAloneIsARun(codec: Codec, s: State, i: nat, env: Env) returns (run: seq<State>)
    requires |s.jobs| == |s.pcs| && i < |s.pcs|
    ensures run != [] && run[0] == s
    ensures forall m, n :: 0 <= m < n < |run| && n == m + 1 ==> CanStep(codec, run[m], run[n])
    ensures var r, last := RunAlone(codec, s.bucket, s.jobs[i], s.pcs[i], env), run[|run| - 1];
      last.bucket == r.0 && last.jobs == s.jobs && last.pcs == s.pcs[i := Ended(r.1)]
    decreases Rank(s.pcs[i])
  {
    if s.pcs[i].Ended? {
      run := [s];
      assert s.pcs[i := s.pcs[i]] == s.pcs;
    } else {
      var next := Apply(codec, s, Operate(i, env)).value;
      assert CanStep(codec, s, next);
      var rest := RunAloneIsARun(codec, next, i, env);
      run := [s] + rest;
      assert next.pcs[i := rest[|rest| - 1].pcs[i]] == s.pcs[i := rest[|rest| - 1].pcs[i]];
    }
  }

  // ---- the code ----

  datatype ReadResult = ReadError | NotFound | Found(data: string)

  class Bucket {
    var objects: Objects

    constructor (objects: Objects)
      ensures this.objects == objects
    {
      this.objects := objects;
    }

    method ReadAll(key: string, fails: bool) returns (r: ReadResult)
      ensures r == if fails then ReadError else if key in objects then Found(objects[key]) else NotFound
    {
      r := if fails then ReadError else if key in objects then Found(objects[key]) else NotFound;
    }

    method WriteAll(key: string, data: string, w: WriteFault) returns (ok: bool)
      modifies this
      ensures objects == Put(old(objects), key, data, w) && ok == w.Ok()
    {
      if w.effect {
        objects := objects[key := data];
      }
      ok := w.effect && w.reported;
    }

    /** A write that the bucket refuses when the data does not have the announced MD5 sum. */
    method Upload(codec: Codec, key: string, data: string, md5: string, w: WriteFault) returns (ok: bool)
      modifies this
      ensures if codec.md5(data) == md5 then objects == Put(old(objects), key, data, w) && ok == w.Ok()
              else objects == old(objects) && !ok
    {
      if codec.md5(data) == md5 {
        ok := WriteAll(key, data, w);
      } else {
        ok := false;
      }
    }
  }

  datatype CheckResult = Absent | AlreadyThere | CheckFailed

  /** Looks for an existing .narinfo and merges signatures into it. */
  method CheckUploadOverwrite(codec: Codec, destination: Bucket, job: Job, env: Env) returns (r: CheckResult)
    modifies destination
    ensures match CheckOverwrite(codec, old(destination.objects), job, env)
            case Dumping => r == Absent && destination.objects == old(destination.objects)
            case Merging(_, text) =>
              r == AlreadyThere && destination.objects == Put(old(destination.objects), job.Key(), text, env.mergeWrite)
            case Ended(outcome) =>
              && r == (if outcome == Skipped then AlreadyThere else CheckFailed)
              && destination.objects == old(destination.objects)
            case _ => false
  {
    var data := destination.ReadAll(job.Key(), env.readFails);
    if data.NotFound? {
      return Absent;
    }
    if data.ReadError? {
      return CheckFailed;
    }
    var parsed := codec.unmarshal(data.data);
    if parsed.None? {
      return AlreadyThere;
    }
    var oldInfo := parsed.value;
    if oldInfo.narHash != job.info.narHash || oldInfo.narSize != job.info.narSize {
      return AlreadyThere;
    }
    var oldSigLen := |oldInfo.sigs|;
    oldInfo := oldInfo.(sigs := AddSignatures(oldInfo.sigs, job.info.sigs));
    if |oldInfo.sigs| <= oldSigLen {
      return AlreadyThere;
    }
    var text := codec.marshal(oldInfo);
    if text.None? {
      return AlreadyThere;
    }
    var _ := destination.WriteAll(job.Key(), text.value, env.mergeWrite);
    return AlreadyThere;
  }

  datatype Written = Written(narHash: Hash, narSize: nat, fileHash: Hash, fileSize: nat, url: string, md5: string,
                             listing: Option<string>, file: string)

  /** Hashes and counts what passes through. */
  class HashWriter {
    const codec: Codec
    var written: string
    var n: nat

    predicate Valid() reads this { n == |written| }

    constructor (codec: Codec)
      ensures Valid() && this.codec == codec && written == ""
    {
      this.codec, written, n := codec, "", 0;
    }

    function Sum(): Hash reads this { codec.HashOf(written) }

    method Write(p: string)
      requires Valid()
      modifies this
      ensures Valid() && written == old(written) + p
    {
      written, n := written + p, n + |p|;
    }

    /** Writes the data in pieces, as they come. */
    method Pass(data: string)
      requires Valid()
      modifies this
      ensures Valid() && written == old(written) + data
    {
      var done := 0;
      while done < |data|
        invariant done <= |data| && Valid() && written == old(written) + data[..done]
      {
        var size: nat :| 0 < size <= |data| - done;
        assert data[..done + size] == data[..done] + data[done..done + size];
        Write(data[done..done + size]);
        done := done + size;
      }
      assert data[..done] == data;
    }
  }

  /** Archives and compresses the store path, hashing and counting on both sides of the compressor. `parsed` is
      the listing made of the archive, if it can be parsed. */
  method DumpPath(codec: Codec, compression: string, wantListing: bool, compressor: Compressor, nar: Option<Archive>,
                  parsed: Option<string>)
      returns (r: Option<Written>)
    ensures r.Some? <==> CanCompress(compression) && compressor.starts && nar.Some? && compressor.finishes
    ensures r.Some? ==>
              && r.value.file == codec.compress(compression, nar.value)
              && r.value.narHash == codec.HashOf(nar.value) && r.value.narSize == |nar.value|
              && r.value.fileHash == codec.HashOf(r.value.file) && r.value.fileSize == |r.value.file|
              && r.value.url == NarKey(codec, codec.sha256(r.value.file), compression)
              && r.value.md5 == codec.md5(r.value.file) && r.value.listing == (if wantListing then parsed else None)
  {
    if !CanCompress(compression) || !compressor.starts {
      return None;
    }
    var uncompressed := new HashWriter(codec);
    if nar.None? {
      return None;
    }
    uncompressed.Pass(nar.value);
    assert "" + nar.value == nar.value;
    var compressed := new HashWriter(codec);
    compressed.Pass(codec.compress(compression, uncompressed.written));
    assert compressed.written == codec.compress(compression, nar.value);
    if !compressor.finishes {
      return None;
    }
    var fileHash := compressed.Sum();
    var url := "nar/" + codec.base32(fileHash.digest) + ".nar" + Extension(compression).GetOr("");
    return Some(Written(uncompressed.Sum(), uncompressed.n, fileHash, compressed.n, url,
                        codec.md5(compressed.written), if wantListing then parsed else None, compressed.written));
  }

  /** The whole upload does what an uploader of the protocol does when it is left alone. */
  method UploadStorePath(codec: Codec, destination: Bucket, job: Job, env: Env) returns (outcome: Outcome)
    modifies destination
    ensures (destination.objects, outcome) == RunAlone(codec, old(destination.objects), job, Start, env)
    ensures codec.Ideal() && job.Valid() && outcome == Uploaded ==> Published(codec, destination.objects, job, env)
  {
    outcome := UploadObject(codec, destination, job, env);
    if codec.Ideal() && job.Valid() && outcome == Uploaded {
      UploadedIsPublished(codec, old(destination.objects), job, env);
    }
  }

  /** Check, dump, compare with what the local store says, and publish. */
  method UploadObject(codec: Codec, destination: Bucket, job: Job, env: Env) returns (outcome: Outcome)
    modifies destination
    ensures (destination.objects, outcome) == RunAlone(codec, old(destination.objects), job, Start, env)
  {
    if !job.overwrite {
      var check := CheckUploadOverwrite(codec, destination, job, env);
      if check.AlreadyThere? {
        return Skipped;
      }
      if check.CheckFailed? {
        return Failed;
      }
    }
    var written := DumpPath(codec, job.compression, job.listing, env.compressor, env.nar, env.listing);
    if written.None? {
      return Failed;
    }
    var w := written.value;
    if job.info.narHash != Some(w.narHash) {
      return Failed;
    }
    if job.info.narSize != w.narSize {
      return Failed;
    }
    var info := job.info.(fileHash := Some(w.fileHash), fileSize := w.fileSize, url := w.url,
      compression := job.compression);
    var text := codec.marshal(info);
    if text.None? {
      return Failed;
    }
    outcome := Publish(codec, destination, job, info, text.value, w, env);
  }

  /** The bucket writes, content first. */
  method Publish(codec: Codec, destination: Bucket, job: Job, info: NARInfo, text: string, written: Written, env: Env)
      returns (outcome: Outcome)
    requires written.md5 == codec.md5(written.file) && written.listing == if job.listing then env.listing else None
    modifies destination
    ensures (destination.objects, outcome) ==
              RunAlone(codec, old(destination.objects), job, WritingNar(info, text, written.file), env)
  {
    ghost var pc := WritingNar(info, text, written.file);
    ghost var next := Advance(codec, destination.objects, job, pc, env).1;
    var ok := destination.Upload(codec, info.url, written.file, written.md5, env.narWrite);
    if !ok {
      return Failed;
    }
    assert RunAlone(codec, old(destination.objects), job, pc, env)
        == RunAlone(codec, destination.objects, job, next, env);
    if written.listing.Some? {
      var _ := destination.WriteAll(ListingKey(info.Digest()), written.listing.value, env.listingWrite);
    }
    assert RunAlone(codec, old(destination.objects), job, pc, env)
        == RunAlone(codec, destination.objects, job, WritingInfo(info, text), env);
    ghost var r := Advance(codec, destination.objects, job, WritingInfo(info, text), env);
    assert RunAlone(codec, r.0, job, r.1, env) == (r.0, r.1.outcome);
    ok := destination.WriteAll(job.Key(), text, env.infoWrite);
    outcome := if ok then Uploaded else Failed;
  }

  // ---- uploads one after another ----

  lemma {:induction false} NothingNewToAdd(sigs: seq<Signature>, more: seq<Signature>)
    ensures |AddSignatures(sigs, more)| <= |sigs| <==> forall x :: x in more ==> x in sigs
    ensures (forall x :: x in more ==> x in sigs) ==> AddSignatures(sigs, more) == sigs
    decreases |more|
  {
    if more == [] {
    } else {
      var sigs' := if more[0] in sigs then sigs else sigs + [more[0]];
      NothingNewToAdd(sigs', more[1..]);
      assert forall x :: x in more <==> x == more[0] || x in more[1..];
      if more[0] !in sigs {
        assert sigs' <= AddSignatures(sigs', more[1..]);
      }
    }
  }

  /** Uploads of other objects leave an entry alone. */
  ghost predicate WritesElsewhere(job: Job, pc: Pc) {
    match pc
    case WritingNar(info, _, _) => !AtRoot(info.url) && info.Digest() == job.info.Digest()
    case WritingListing(info, _) => info.Digest() == job.info.Digest()
    case _ => true
  }

  lemma {:induction false} OtherDigest(codec: Codec, bucket: Objects, job: Job, pc: Pc, env: Env, d: string)
    requires codec.Ideal() && job.Valid() && WritesElsewhere(job, pc) && IsDigest(d) && d != job.info.Digest()
    ensures ReadInfo(codec, RunAlone(codec, bucket, job, pc, env).0, d) == ReadInfo(codec, bucket, d)
    decreases Rank(pc)
  {
    if pc.Ended? {
    } else {
      var r := Advance(codec, bucket, job, pc, env);
      RootKeys(d);
      RootKeys(job.info.Digest());
      assert InfoKey(d) != job.Key() by {
        if InfoKey(d) == job.Key() { InfoKeyInjective(d, job.info.Digest()); }
      }
      if pc.Dumping? && r.1.WritingNar? {
        NarKeyIsNarPath(codec, codec.sha256(r.1.file), job.compression);
      }
      assert ReadInfo(codec, r.0, d) == ReadInfo(codec, bucket, d);
      OtherDigest(codec, r.0, job, r.1, env, d);
    }
  }

  /** The signatures an upload adds to the entry of `d`: those of a matching upload whose write happened. */
  function Contribution(codec: Codec, bucket: Objects, job: Job, env: Env, d: string): set<Signature> {
    if job.info.Digest() == d && CheckOverwrite(codec, bucket, job, env).Merging? && env.mergeWrite.effect
    then set x | x in job.info.sigs else {}
  }

  function SigSet(info: NARInfo): set<Signature> { set x | x in info.sigs }

  /** A non-forced upload changes nothing of an existing entry but its signatures. */
  lemma NonForcedUpload(codec: Codec, bucket: Objects, job: Job, env: Env, d: string)
    requires codec.Ideal() && job.Valid() && !job.overwrite && IsDigest(d) && ReadInfo(codec, bucket, d).Some?
    ensures var before := ReadInfo(codec, bucket, d);
      var after := ReadInfo(codec, RunAlone(codec, bucket, job, Start, env).0, d);
      && after.Some? && after.value.(sigs := []) == before.value.(sigs := [])
      && SigSet(after.value) == SigSet(before.value) + Contribution(codec, bucket, job, env, d)
  {
    if d != job.info.Digest() {
      OtherDigest(codec, bucket, job, Start, env, d);
    } else {
      var pc := CheckOverwrite(codec, bucket, job, env);
      assert Advance(codec, bucket, job, Start, env) == (bucket, pc);
      if pc.Merging? {
        assert RunAlone(codec, bucket, job, pc, env).0 == Put(bucket, job.Key(), pc.text, env.mergeWrite);
      }
    }
  }

  datatype Attempt = Attempt(job: Job, env: Env)

  function UploadAll(codec: Codec, bucket: Objects, attempts: seq<Attempt>): Objects
    decreases |attempts|
  {
    if attempts == [] then bucket
    else UploadAll(codec, RunAlone(codec, bucket, attempts[0].job, Start, attempts[0].env).0, attempts[1..])
  }

  function Contributions(codec: Codec, bucket: Objects, attempts: seq<Attempt>, d: string): set<Signature>
    decreases |attempts|
  {
    if attempts == [] then {}
    else
      var a := attempts[0];
      Contribution(codec, bucket, a.job, a.env, d) +
      Contributions(codec, RunAlone(codec, bucket, a.job, Start, a.env).0, attempts[1..], d)
  }

  /** Over any sequence of non-forced uploads, with any faults: an entry that exists keeps its record but
      for the signatures, and these become the union of its own with those of the matching uploads
      whose write happened. */
  lemma {:induction false} EntriesAreMonotone(codec: Codec, bucket: Objects, attempts: seq<Attempt>, d: string)
    requires codec.Ideal() && IsDigest(d) && ReadInfo(codec, bucket, d).Some?
    requires forall a :: a in attempts ==> a.job.Valid() && !a.job.overwrite
    ensures var before, after := ReadInfo(codec, bucket, d), ReadInfo(codec, UploadAll(codec, bucket, attempts), d);
      && after.Some? && after.value.(sigs := []) == before.value.(sigs := [])
      && SigSet(after.value) == SigSet(before.value) + Contributions(codec, bucket, attempts, d)
    decreases |attempts|
  {
    if attempts == [] {
    } else {
      var a := attempts[0];
      NonForcedUpload(codec, bucket, a.job, a.env, d);
      EntriesAreMonotone(codec, RunAlone(codec, bucket, a.job, Start, a.env).0, attempts[1..], d);
    }
  }

  /** An entry with other content, or one that cannot be read, stops a non-forced upload altogether. */
  lemma MismatchChangesNothing(codec: Codec, bucket: Objects, job: Job, env: Env)
    requires !job.overwrite && InfoKey(job.info.Digest()) in bucket
    requires var found := codec.unmarshal(bucket[InfoKey(job.info.Digest())]);
      found.Some? ==> found.value.narHash != job.info.narHash || found.value.narSize != job.info.narSize
    ensures RunAlone(codec, bucket, job, Start, env) == (bucket, if env.readFails then Failed else Skipped)
  {
    assert Advance(codec, bucket, job, Start, env) == (bucket, Ended(if env.readFails then Failed else Skipped));
  }

  /** After the NAR has been written without faults the .narinfo is in place. */
  lemma PublishedInfo(codec: Codec, bucket: Objects, job: Job, pc: Pc, env: Env)
    requires pc.WritingNar? && env.infoWrite.effect && env.narWrite.Ok()
    ensures var r := RunAlone(codec, bucket, job, pc, env);
      job.Key() in r.0 && r.0[job.Key()] == pc.text
  {
    var b1, pc1 := Put(bucket, pc.info.url, pc.file, env.narWrite), Advance(codec, bucket, job, pc, env).1;
    var r1 := Advance(codec, b1, job, pc1, env);
    if pc1.WritingListing? {
      assert r1.1 == WritingInfo(pc.info, pc.text);
      assert RunAlone(codec, r1.0, job, r1.1, env).0 == Put(r1.0, job.Key(), pc.text, env.infoWrite);
    } else {
      assert RunAlone(codec, b1, job, pc1, env).0 == Put(b1, job.Key(), pc.text, env.infoWrite);
    }
  }

  /** With its own entry in place and nothing new to add, an upload does nothing. */
  lemma NothingToDo(codec: Codec, bucket: Objects, job: Job, env: Env, info: NARInfo)
    requires !job.overwrite && ReadInfo(codec, bucket, job.info.Digest()) == Some(info) && SameContent(info, job.info)
    requires forall x :: x in job.info.sigs ==> x in info.sigs
    ensures RunAlone(codec, bucket, job, Start, env).0 == bucket
  {
    NothingNewToAdd(info.sigs, job.info.sigs);
    assert Advance(codec, bucket, job, Start, env) == (bucket, Ended(if env.readFails then Failed else Skipped));
  }

  /** What was asked of the bucket about the .narinfo was done. The outcome does not always tell: the merge of
      signatures is reported as "already there" even when its write has failed. */
  predicate Took(codec: Codec, bucket: Objects, job: Job, env: Env) {
    CheckOverwrite(codec, bucket, job, env).Merging? ==> env.mergeWrite.effect
  }

  /** Repeating a successful upload leaves the bucket unchanged, whatever happens the second time, if and only if
      the first did not lose a merge of signatures. */
  lemma RepeatedUpload(codec: Codec, bucket: Objects, job: Job, env: Env)
    requires codec.Ideal() && job.Valid() && !job.overwrite
    requires RunAlone(codec, bucket, job, Start, env).1 in {Uploaded, Skipped}
    ensures var after := RunAlone(codec, bucket, job, Start, env).0;
      (forall again :: RunAlone(codec, after, job, Start, again).0 == after) <==> Took(codec, bucket, job, env)
  {
    var after := RunAlone(codec, bucket, job, Start, env).0;
    if Took(codec, bucket, job, env) {
      forall again ensures RunAlone(codec, after, job, Start, again).0 == after {
        RepeatedAfterSuccess(codec, bucket, job, env, again);
      }
    } else {
      var again := env.(mergeWrite := WriteFault(true, true));
      LostMerge(codec, bucket, job, env, again);
    }
  }

  /** A merge whose write had no effect is made up for by the next upload, which then changes the bucket. */
  lemma LostMerge(codec: Codec, bucket: Objects, job: Job, env: Env, again: Env)
    requires codec.Ideal() && !job.overwrite && CheckOverwrite(codec, bucket, job, env).Merging?
    requires !env.mergeWrite.effect
    requires again == env.(mergeWrite := WriteFault(true, true))
    ensures RunAlone(codec, bucket, job, Start, env) == (bucket, Skipped)
    ensures RunAlone(codec, bucket, job, Start, again).0 != bucket
  {
    var pc := CheckOverwrite(codec, bucket, job, env);
    assert CheckOverwrite(codec, bucket, job, again) == pc;
    assert RunAlone(codec, bucket, job, pc, env) == (bucket, Skipped);
    var after := bucket[job.Key() := pc.text];
    assert RunAlone(codec, bucket, job, pc, again).0 == after;
    assert codec.unmarshal(after[job.Key()]) == Some(pc.info) && codec.unmarshal(bucket[job.Key()]) != Some(pc.info);
  }

  lemma RepeatedAfterSuccess(codec: Codec, bucket: Objects, job: Job, env: Env, again: Env)
    requires codec.Ideal() && job.Valid() && !job.overwrite && Took(codec, bucket, job, env)
    requires RunAlone(codec, bucket, job, Start, env).1 in {Uploaded, Skipped}
    ensures var after := RunAlone(codec, bucket, job, Start, env).0;
      RunAlone(codec, after, job, Start, again).0 == after
  {
    var pc := CheckOverwrite(codec, bucket, job, env);
    assert Advance(codec, bucket, job, Start, env) == (bucket, pc);
    var after := RunAlone(codec, bucket, job, Start, env).0;
    if pc.Merging? {
      assert after == Put(bucket, job.Key(), pc.text, env.mergeWrite);
      NothingToDo(codec, after, job, again, pc.info);
    } else if pc.Dumping? {
      var pc1 := Dump(codec, job, env);
      assert Advance(codec, bucket, job, Dumping, env) == (bucket, pc1);
      assert RunAlone(codec, bucket, job, Start, env) == RunAlone(codec, bucket, job, pc1, env);
      SuccessMeansWritten(codec, bucket, job, pc1, env);
      PublishedInfo(codec, bucket, job, pc1, env);
      NothingToDo(codec, after, job, again, pc1.info);
    } else {
      assert after == bucket;
      var pc2 := CheckOverwrite(codec, bucket, job, again);
      assert Advance(codec, bucket, job, Start, again) == (bucket, pc2);
    }
  }

  /** An upload that got as far as writing succeeds only if the NAR and the .narinfo have been written; the listing
      does not matter. */
  lemma SuccessMeansWritten(codec: Codec, bucket: Objects, job: Job, pc: Pc, env: Env)
    requires pc.WritingNar? || pc == Ended(Failed)
    requires RunAlone(codec, bucket, job, pc, env).1 in {Uploaded, Skipped}
    ensures pc.WritingNar? && env.narWrite.Ok() && env.infoWrite.Ok()
  {
    if pc.WritingNar? {
      var b1, pc1 := Put(bucket, pc.info.url, pc.file, env.narWrite), Advance(codec, bucket, job, pc, env).1;
      assert RunAlone(codec, bucket, job, pc, env) == RunAlone(codec, b1, job, pc1, env);
      if pc1.WritingListing? {
        var b2 := Advance(codec, b1, job, pc1, env).0;
        assert RunAlone(codec, b1, job, pc1, env) == RunAlone(codec, b2, job, WritingInfo(pc.info, pc.text), env);
        LastWrite(codec, b2, job, pc.info, pc.text, env);
      } else if pc1.WritingInfo? {
        LastWrite(codec, b1, job, pc.info, pc.text, env);
      }
    }
  }

  lemma LastWrite(codec: Codec, bucket: Objects, job: Job, info: NARInfo, text: string, env: Env)
    ensures RunAlone(codec, bucket, job, WritingInfo(info, text), env)
         == (Put(bucket, job.Key(), text, env.infoWrite), if env.infoWrite.Ok() then Uploaded else Failed)
  {
    var r := Advance(codec, bucket, job, WritingInfo(info, text), env);
    assert RunAlone(codec, r.0, job, r.1, env) == (r.0, r.1.outcome);
  }

  // ---- what a successful upload leaves behind ----

  /** A record without what it says about the file. */
  function WithoutFile(info: NARInfo): NARInfo {
    info.(fileHash := None, fileSize := 0, url := "", compression := "")
  }

  /** The .narinfo in the bucket is the local record with the file's hash, size, URL and compression, and its file
      is the archive that was dumped, compressed as asked for. */
  ghost predicate Published(codec: Codec, bucket: Objects, job: Job, env: Env) {
    var read := ReadInfo(codec, bucket, job.info.Digest());
    && read.Some? && WithoutFile(read.value) == WithoutFile(job.info) && read.value.compression == job.compression
    && Backed(codec, bucket, read.value)
    && env.nar.Some? && codec.decompress(job.compression, bucket[read.value.url]) == env.nar.value
    && (job.listing && env.listing.Some? && env.listingWrite.effect ==>
          ListingKey(job.info.Digest()) in bucket && bucket[ListingKey(job.info.Digest())] == env.listing.value)
  }

  /** The keys that an upload can write. */
  function Writable(codec: Codec, job: Job, env: Env): set<string> {
    {job.Key()} + (if job.listing then {ListingKey(job.info.Digest())} else {}) +
    if env.nar.None? then {}
    else
      var file := codec.compress(job.compression, env.nar.value);
      {NarKey(codec, codec.sha256(file), job.compression)}
  }

  /** The three writes of an upload that has dumped its object. */
  lemma WritesInOrder(codec: Codec, bucket: Objects, job: Job, info: NARInfo, text: string, file: string, env: Env)
    ensures var r := RunAlone(codec, bucket, job, WritingNar(info, text, file), env);
      var b1 := Put(bucket, info.url, file, env.narWrite);
      var listed := job.listing && env.listing.Some?;
      var b2 := if listed then Put(b1, ListingKey(info.Digest()), env.listing.value, env.listingWrite) else b1;
      r == if !env.narWrite.Ok() then (b1, Failed)
           else (Put(b2, job.Key(), text, env.infoWrite), if env.infoWrite.Ok() then Uploaded else Failed)
  {
    var b1 := Put(bucket, info.url, file, env.narWrite);
    var next := Advance(codec, bucket, job, WritingNar(info, text, file), env).1;
    assert RunAlone(codec, bucket, job, WritingNar(info, text, file), env) == RunAlone(codec, b1, job, next, env);
    if next.WritingListing? {
      var b2 := Advance(codec, b1, job, next, env).0;
      assert RunAlone(codec, b1, job, next, env) == RunAlone(codec, b2, job, WritingInfo(info, text), env);
      LastWrite(codec, b2, job, info, text, env);
    } else if next.WritingInfo? {
      LastWrite(codec, b1, job, info, text, env);
    }
  }

  /** An upload that ends as uploaded went through the dump. */
  lemma UploadedDumped(codec: Codec, bucket: Objects, job: Job, env: Env)
    requires RunAlone(codec, bucket, job, Start, env).1 == Uploaded
    ensures var pc := Dump(codec, job, env);
      pc.WritingNar? && RunAlone(codec, bucket, job, Start, env) == RunAlone(codec, bucket, job, pc, env)
  {
    var pc := if job.overwrite then Dumping else CheckOverwrite(codec, bucket, job, env);
    assert RunAlone(codec, bucket, job, Start, env) == RunAlone(codec, bucket, job, pc, env);
    assert pc.Merging? ==> RunAlone(codec, bucket, job, pc, env).1 == Skipped;
    assert RunAlone(codec, bucket, job, Dumping, env) == RunAlone(codec, bucket, job, Dump(codec, job, env), env);
  }

  lemma UploadedIsPublished(codec: Codec, bucket: Objects, job: Job, env: Env)
    requires codec.Ideal() && job.Valid() && RunAlone(codec, bucket, job, Start, env).1 == Uploaded
    ensures Published(codec, RunAlone(codec, bucket, job, Start, env).0, job, env)
  {
    UploadedDumped(codec, bucket, job, env);
    var pc := Dump(codec, job, env);
    var file := codec.compress(job.compression, env.nar.value);
    WritesInOrder(codec, bucket, job, pc.info, pc.text, pc.file, env);
    NarKeyIsNarPath(codec, codec.sha256(file), job.compression);
    RootKeys(job.info.Digest());
    assert codec.decompress(job.compression, file) == env.nar.value;
  }

  /** An upload writes its own keys and no others. */
  lemma WritesOnlyItsKeys(codec: Codec, bucket: Objects, job: Job, env: Env, key: string)
    requires key !in Writable(codec, job, env)
    ensures var after := RunAlone(codec, bucket, job, Start, env).0;
      (key in after <==> key in bucket) && (key in after ==> after[key] == bucket[key])
  {
    var pc := if job.overwrite then Dumping else CheckOverwrite(codec, bucket, job, env);
    assert RunAlone(codec, bucket, job, Start, env) == RunAlone(codec, bucket, job, pc, env);
    if pc.Merging? {
      assert RunAlone(codec, bucket, job, pc, env).0 == Put(bucket, job.Key(), pc.text, env.mergeWrite);
    } else if pc.Dumping? {
      var next := Dump(codec, job, env);
      assert RunAlone(codec, bucket, job, pc, env) == RunAlone(codec, bucket, job, next, env);
      if next.WritingNar? {
        WritesInOrder(codec, bucket, job, next.info, next.text, next.file, env);
      }
    }
  }

  ghost predicate NoFaults(env: Env) {
    && !env.readFails && env.mergeWrite.Ok() && env.narWrite.Ok() && env.listingWrite.Ok() && env.infoWrite.Ok()
    && env.compressor.starts && env.compressor.finishes
  }

  /** Without faults an upload of an absent object, or a forced one, succeeds when the archive is what the local store
      says and the record can be written as a .narinfo. */
  lemma UploadSucceeds(codec: Codec, bucket: Objects, job: Job, env: Env)
    requires NoFaults(env) && (job.overwrite || InfoKey(job.info.Digest()) !in bucket)
    requires job.compression in {"none", "gzip", "bzip2", "xz"} && env.nar.Some?
    requires job.info.narHash == Some(codec.HashOf(env.nar.value)) && job.info.narSize == |env.nar.value|
    requires forall info :: WithoutFile(info) == WithoutFile(job.info) ==> codec.marshal(info).Some?
    ensures RunAlone(codec, bucket, job, Start, env).1 == Uploaded
  {
    assert RunAlone(codec, bucket, job, Start, env) == RunAlone(codec, bucket, job, Dumping, env);
    var pc := Dump(codec, job, env);
    assert RunAlone(codec, bucket, job, Dumping, env) == RunAlone(codec, bucket, job, pc, env);
    assert WithoutFile(WrittenInfo(codec, job.info, job.compression, env.nar.value)) == WithoutFile(job.info);
    WritesInOrder(codec, bucket, job, pc.info, pc.text, pc.file, env);
  }

  /** When the bucket cannot be asked about the entry, a non-forced upload fails and writes nothing. */
  lemma UnreadableBucket(codec: Codec, bucket: Objects, job: Job, env: Env)
    requires !job.overwrite && env.readFails
    ensures RunAlone(codec, bucket, job, Start, env) == (bucket, Failed)
  {
    assert Advance(codec, bucket, job, Start, env) == (bucket, Ended(Failed));
  }

  /** An entry of the same content that lacks some signature is written again, if that can be done, with its own
      signatures in front and exactly the union of both; nothing else of it changes. */
  lemma MergeIsUnion(codec: Codec, bucket: Objects, job: Job, env: Env, found: NARInfo)
    requires codec.Ideal() && !job.overwrite && !env.readFails && env.mergeWrite.effect
    requires ReadInfo(codec, bucket, job.info.Digest()) == Some(found)
    requires found.narHash == job.info.narHash && found.narSize == job.info.narSize
    requires exists x :: x in job.info.sigs && x !in found.sigs
    requires forall info: NARInfo :: info.(sigs := found.sigs) == found ==> codec.marshal(info).Some?
    ensures var read := ReadInfo(codec, RunAlone(codec, bucket, job, Start, env).0, job.info.Digest());
      && read.Some? && read.value.(sigs := found.sigs) == found && found.sigs <= read.value.sigs
      && SigSet(read.value) == SigSet(found) + SigSet(job.info)
  {
    var merged := found.(sigs := AddSignatures(found.sigs, job.info.sigs));
    NothingNewToAdd(found.sigs, job.info.sigs);
    assert merged.(sigs := found.sigs) == found && codec.marshal(merged).Some?;
    var pc := CheckOverwrite(codec, bucket, job, env);
    assert RunAlone(codec, bucket, job, Start, env) == RunAlone(codec, bucket, job, pc, env);
    assert RunAlone(codec, bucket, job, pc, env).0 == Put(bucket, job.Key(), pc.text, env.mergeWrite);
  }

  /** No signature is there twice that was not before. */
  lemma {:induction false} AddSignaturesDistinct(sigs: seq<Signature>, more: seq<Signature>)
    requires Distinct(sigs)
    ensures Distinct(AddSignatures(sigs, more))
    decreases |more|
  {
    if more == [] {
    } else {
      var next := if more[0] in sigs then sigs else sigs + [more[0]];
      assert Distinct(next) by {
        forall i, j | 0 <= i < j < |next| ensures next[i] != next[j] {
          assert next[i] in sigs;
        }
      }
      AddSignaturesDistinct(next, more[1..]);
    }
  }

  ghost predicate Distinct(sigs: seq<Signature>) {
    forall i, j :: 0 <= i < j < |sigs| ==> sigs[i] != sigs[j]
  }

  // ---- entries and their files ----

  /** A lone upload keeps a good bucket good and all that is backed backed. */
  lemma {:induction false} RunAloneKeeps(codec: Codec, bucket: Objects, job: Job, pc: Pc, env: Env)
    requires codec.Ideal() && GoodBucket(codec, bucket) && job.Valid() && PcInv(codec, bucket, job, pc)
    ensures var after := RunAlone(codec, bucket, job, pc, env).0;
      GoodBucket(codec, after) && Preserves(codec, bucket, after)
    decreases Rank(pc)
  {
    if pc.Ended? {
    } else {
      var (bucket', pc') := Advance(codec, bucket, job, pc, env);
      AdvanceKeeps(codec, bucket, job, pc, env);
      RunAloneKeeps(codec, bucket', job, pc', env);
    }
  }

  lemma {:induction false} UploadAllKeeps(codec: Codec, bucket: Objects, attempts: seq<Attempt>)
    requires codec.Ideal() && GoodBucket(codec, bucket) && forall a :: a in attempts ==> a.job.Valid()
    ensures var after := UploadAll(codec, bucket, attempts); GoodBucket(codec, after) && Preserves(codec, bucket, after)
    decreases |attempts|
  {
    if attempts == [] {
    } else {
      var a := attempts[0];
      RunAloneKeeps(codec, bucket, a.job, Start, a.env);
      UploadAllKeeps(codec, RunAlone(codec, bucket, a.job, Start, a.env).0, attempts[1..]);
    }
  }

  /** In a good bucket, over any sequence of non-forced uploads, the file of an existing entry stays as well, byte
      for byte. */
  lemma FilesStay(codec: Codec, bucket: Objects, attempts: seq<Attempt>, d: string)
    requires codec.Ideal() && GoodBucket(codec, bucket) && IsDigest(d) && ReadInfo(codec, bucket, d).Some?
    requires forall a :: a in attempts ==> a.job.Valid() && !a.job.overwrite
    ensures var after := UploadAll(codec, bucket, attempts);
      var info := ReadInfo(codec, bucket, d).value;
      && ReadInfo(codec, after, d).Some? && ReadInfo(codec, after, d).value.url == info.url
      && info.url in bucket && info.url in after && after[info.url] == bucket[info.url]
      && Backed(codec, after, ReadInfo(codec, after, d).value)
  {
    EntriesAreMonotone(codec, bucket, attempts, d);
    UploadAllKeeps(codec, bucket, attempts);
    var after := UploadAll(codec, bucket, attempts);
    assert Backed(codec, bucket, ReadInfo(codec, bucket, d).value);
    assert Backed(codec, after, ReadInfo(codec, after, d).value);
    assert ReadInfo(codec, after, d).value.(sigs := []).url == ReadInfo(codec, bucket, d).value.(sigs := []).url;
  }
}
