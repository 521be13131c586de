/** The bucket publication protocol (uploadStorePath, checkUploadOverwrite and dump in upload.go): many
    uploaders check, write the NAR, write the listing and write the .narinfo on one shared bucket, one
    bucket operation at a time, and any of them may stop for good between two operations. */
module Publication {
  import opened Sequences
  import opened StoreObjects
  import opened NarInfos

  /** Key to content; every object is a byte string. */
  type Objects = map<string, string>

  /** One upload: what the local store reports about the object, and the options. */
  datatype Job = Job(info: NARInfo, overwrite: bool, compression: string, listing: bool) {
    predicate Valid() { IsDigest(info.Digest()) }
    function Key(): string { InfoKey(info.Digest()) }
  }

  /** A write either takes effect or not, and is reported as done only when it did. */
  datatype WriteFault = WriteFault(effect: bool, reported: bool) {
    function Ok(): bool { effect && reported }
  }

  /** Everything the outside world decides during one upload. `nar` is the archive that dumping the store path
      produces at that moment, None when dumping fails; the compressor may fail to start or to finish. */
  datatype Env = Env(
    readFails: bool,
    mergeWrite: WriteFault,
    compressor: Compressor,
    nar: Option<Archive>,
    narWrite: WriteFault,
    listing: Option<string>,
    listingWrite: WriteFault,
    infoWrite: WriteFault)

  datatype Compressor = Compressor(starts: bool, finishes: bool)

  datatype Outcome = Skipped | Uploaded | Failed | Crashed

  /** Where an uploader is, with its local copies: the .narinfo it is about to write in both forms, and the
      compressed file. */
  datatype Pc =
    | Start
    | Merging(info: NARInfo, text: string)
    | Dumping
    | WritingNar(info: NARInfo, text: string, file: string)
    | WritingListing(info: NARInfo, text: string)
    | WritingInfo(info: NARInfo, text: string)
    | Ended(outcome: Outcome)

  /** Signatures not present yet are added at the end, in order. */
  function AddSignatures(sigs: seq<Signature>, more: seq<Signature>): (r: seq<Signature>)
    ensures sigs <= r
    ensures forall x :: x in r <==> x in sigs || x in more
    decreases |more|
  {
    if more == [] then sigs
    else AddSignatures(if more[0] in sigs then sigs else sigs + [more[0]], more[1..])
  }

  function Put(bucket: Objects, key: string, data: string, w: WriteFault): Objects {
    if w.effect then bucket[key := data] else bucket
  }

  predicate SameContent(a: NARInfo, b: NARInfo) { a.narHash == b.narHash && a.narSize == b.narSize }

  function ReadInfo(codec: Codec, bucket: Objects, digest: string): Option<NARInfo> {
    if InfoKey(digest) in bucket then codec.unmarshal(bucket[InfoKey(digest)]) else None
  }

  function CheckOverwrite(codec: Codec, bucket: Objects, job: Job, env: Env): Pc {
    if env.readFails then Ended(Failed)
    else if job.Key() !in bucket then Dumping
    else
      match codec.unmarshal(bucket[job.Key()])
      case None => Ended(Skipped)
      case Some(found) =>
        if !SameContent(found, job.info) then Ended(Skipped)
        else
          var merged := found.(sigs := AddSignatures(found.sigs, job.info.sigs));
          if |merged.sigs| <= |found.sigs| then Ended(Skipped)
          else
            match codec.marshal(merged)
            case None => Ended(Skipped)
            case Some(text) => Merging(merged, text)
  }

  /** What `dump` finds out about the archive it wrote. */
  function WrittenInfo(codec: Codec, info: NARInfo, compression: string, nar: Archive): NARInfo {
    var file := codec.compress(compression, nar);
    info.(fileHash := Some(codec.HashOf(file)), fileSize := |file|,
          url := NarKey(codec, codec.sha256(file), compression), compression := compression)
  }

  function Dump(codec: Codec, job: Job, env: Env): Pc {
    if !CanCompress(job.compression) || !env.compressor.starts || env.nar.None? || !env.compressor.finishes
    then Ended(Failed)
    else
      var nar := env.nar.value;
      if job.info.narHash != Some(codec.HashOf(nar)) || job.info.narSize != |nar| then Ended(Failed)
      else
        var info := WrittenInfo(codec, job.info, job.compression, nar);
        match codec.marshal(info)
        case None => Ended(Failed)
        case Some(text) => WritingNar(info, text, codec.compress(job.compression, nar))
  }

  /** One bucket operation (or the local dump) of one uploader. */
  function Advance(codec: Codec, bucket: Objects, job: Job, pc: Pc, env: Env): (Objects, Pc) {
    match pc
    case Start => (bucket, if job.overwrite then Dumping else CheckOverwrite(codec, bucket, job, env))
    case Merging(_, text) => (Put(bucket, job.Key(), text, env.mergeWrite), Ended(Skipped))
    case Dumping => (bucket, Dump(codec, job, env))
    case WritingNar(info, text, file) =>
      (Put(bucket, info.url, file, env.narWrite),
       if !env.narWrite.Ok() then Ended(Failed)
       else if job.listing && env.listing.Some? then WritingListing(info, text)
       else WritingInfo(info, text))
    case WritingListing(info, text) =>
      (Put(bucket, ListingKey(info.Digest()), env.listing.GetOr(""), env.listingWrite), WritingInfo(info, text))
    case WritingInfo(info, text) =>
      (Put(bucket, job.Key(), text, env.infoWrite), Ended(if env.infoWrite.Ok() then Uploaded else Failed))
    case Ended(_) => (bucket, pc)
  }

  // ---- what a bucket should look like ----

  /** The file, which is not empty, is what the info says it is, down to the archive inside it. */
  ghost predicate Describes(codec: Codec, info: NARInfo, file: string) {
    var nar := codec.decompress(info.compression, file);
    && file != "" && info.fileHash == Some(codec.HashOf(file)) && info.fileSize == |file|
    && info.narHash == Some(codec.HashOf(nar)) && info.narSize == |nar|
  }

  ghost predicate Backed(codec: Codec, bucket: Objects, info: NARInfo) {
    IsNarPath(info.url) && info.url in bucket && Describes(codec, info, bucket[info.url])
  }

  /** No .narinfo in the bucket is dangling. */
  ghost predicate NoDangling(codec: Codec, bucket: Objects) {
    forall d :: IsDigest(d) && ReadInfo(codec, bucket, d).Some? ==>
      Backed(codec, bucket, ReadInfo(codec, bucket, d).value)
  }

  /** A file stored under a NAR name has the hash in that name. */
  ghost predicate ContentAddressed(codec: Codec, bucket: Objects) {
    forall h, c :: NarKey(codec, h, c) in bucket ==> codec.sha256(bucket[NarKey(codec, h, c)]) == h
  }

  ghost predicate GoodBucket(codec: Codec, bucket: Objects) {
    NoDangling(codec, bucket) && ContentAddressed(codec, bucket)
  }

  /** The writes of the protocol leave everything backed that was backed. */
  ghost predicate Preserves(codec: Codec, before: Objects, after: Objects) {
    && (forall info :: Backed(codec, before, info) ==> Backed(codec, after, info))
    && ContentAddressed(codec, after)
  }

  lemma PutNarPreserves(codec: Codec, bucket: Objects, file: string, compression: string, w: WriteFault)
    requires codec.Ideal() && ContentAddressed(codec, bucket)
    ensures Preserves(codec, bucket, Put(bucket, NarKey(codec, codec.sha256(file), compression), file, w))
  {
    var key := NarKey(codec, codec.sha256(file), compression);
    var after := Put(bucket, key, file, w);
    forall h, c | NarKey(codec, h, c) in after ensures codec.sha256(after[NarKey(codec, h, c)]) == h {
      if NarKey(codec, h, c) == key {
        NarKeyInjective(codec, h, c, codec.sha256(file), compression);
      }
    }
  }

  lemma PutAtRootPreserves(codec: Codec, bucket: Objects, key: string, data: string, w: WriteFault)
    requires codec.Ideal() && ContentAddressed(codec, bucket) && AtRoot(key)
    ensures Preserves(codec, bucket, Put(bucket, key, data, w))
  {
    var after := Put(bucket, key, data, w);
    forall info | Backed(codec, bucket, info) ensures Backed(codec, after, info) {
      assert info.url[3] == '/';
    }
    forall h, c | NarKey(codec, h, c) in after ensures codec.sha256(after[NarKey(codec, h, c)]) == h {
      NarKeyIsNarPath(codec, h, c);
    }
  }

  /** Writing a key that is no .narinfo leaves all .narinfo files as they are. */
  lemma PutElsewhere(codec: Codec, bucket: Objects, key: string, data: string, w: WriteFault)
    requires NoDangling(codec, bucket) && Preserves(codec, bucket, Put(bucket, key, data, w))
    requires forall d :: IsDigest(d) ==> InfoKey(d) != key
    ensures GoodBucket(codec, Put(bucket, key, data, w))
  {
    var after := Put(bucket, key, data, w);
    forall d | IsDigest(d) && ReadInfo(codec, after, d).Some?
      ensures Backed(codec, after, ReadInfo(codec, after, d).value) {
      assert ReadInfo(codec, after, d) == ReadInfo(codec, bucket, d);
    }
  }

  /** Publishing a backed .narinfo keeps the bucket good. */
  lemma PutInfo(codec: Codec, bucket: Objects, digest: string, info: NARInfo, text: string, w: WriteFault)
    requires codec.Ideal() && GoodBucket(codec, bucket) && IsDigest(digest)
    requires codec.unmarshal(text) == Some(info) && Backed(codec, bucket, info)
    ensures GoodBucket(codec, Put(bucket, InfoKey(digest), text, w))
    ensures Preserves(codec, bucket, Put(bucket, InfoKey(digest), text, w))
  {
    var after := Put(bucket, InfoKey(digest), text, w);
    RootKeys(digest);
    PutAtRootPreserves(codec, bucket, InfoKey(digest), text, w);
    forall d | IsDigest(d) && ReadInfo(codec, after, d).Some?
      ensures Backed(codec, after, ReadInfo(codec, after, d).value) {
      if InfoKey(d) == InfoKey(digest) {
        InfoKeyInjective(d, digest);
      } else {
        assert ReadInfo(codec, after, d) == ReadInfo(codec, bucket, d);
      }
    }
  }

  // ---- one uploader ----

  /** What an uploader's local copies promise at each point, including a stale .narinfo about to be written
      back with more signatures. */
  ghost predicate PcInv(codec: Codec, bucket: Objects, job: Job, pc: Pc) {
    match pc
    case Merging(info, text) => codec.unmarshal(text) == Some(info) && Backed(codec, bucket, info)
    case WritingNar(info, text, file) =>
      && codec.unmarshal(text) == Some(info) && Describes(codec, info, file)
      && info.url == NarKey(codec, codec.sha256(file), info.compression)
      && info.Digest() == job.info.Digest()
    case WritingListing(info, text) =>
      codec.unmarshal(text) == Some(info) && Backed(codec, bucket, info) && info.Digest() == job.info.Digest()
    case WritingInfo(info, text) => codec.unmarshal(text) == Some(info) && Backed(codec, bucket, info)
    case _ => true
  }

  lemma PcInvStable(codec: Codec, before: Objects, after: Objects, job: Job, pc: Pc)
    requires PcInv(codec, before, job, pc) && Preserves(codec, before, after)
    ensures PcInv(codec, after, job, pc)
  {
  }

  lemma NarKeysAreNotInfoKeys(codec: Codec, fileDigest: string, compression: string)
    requires codec.Ideal()
    ensures forall d :: IsDigest(d) ==> InfoKey(d) != NarKey(codec, fileDigest, compression)
  {
    NarKeyIsNarPath(codec, fileDigest, compression);
    forall d | IsDigest(d) ensures InfoKey(d) != NarKey(codec, fileDigest, compression) {
      RootKeys(d);
    }
  }

  lemma AdvanceNar(codec: Codec, bucket: Objects, job: Job, pc: Pc, env: Env)
    requires codec.Ideal() && GoodBucket(codec, bucket) && job.Valid() && PcInv(codec, bucket, job, pc)
    requires pc.WritingNar?
    ensures var r := Advance(codec, bucket, job, pc, env);
      GoodBucket(codec, r.0) && Preserves(codec, bucket, r.0) && PcInv(codec, r.0, job, r.1)
  {
    var digest := codec.sha256(pc.file);
    NarKeyIsNarPath(codec, digest, pc.info.compression);
    NarKeysAreNotInfoKeys(codec, digest, pc.info.compression);
    PutNarPreserves(codec, bucket, pc.file, pc.info.compression, env.narWrite);
    PutElsewhere(codec, bucket, pc.info.url, pc.file, env.narWrite);
  }

  lemma AdvanceListing(codec: Codec, bucket: Objects, job: Job, pc: Pc, env: Env)
    requires codec.Ideal() && GoodBucket(codec, bucket) && job.Valid() && PcInv(codec, bucket, job, pc)
    requires pc.WritingListing?
    ensures var r := Advance(codec, bucket, job, pc, env);
      GoodBucket(codec, r.0) && Preserves(codec, bucket, r.0) && PcInv(codec, r.0, job, r.1)
  {
    var key := ListingKey(pc.info.Digest());
    RootKeys(pc.info.Digest());
    forall d | IsDigest(d) ensures InfoKey(d) != key { RootKeys(d); }
    PutAtRootPreserves(codec, bucket, key, env.listing.GetOr(""), env.listingWrite);
    PutElsewhere(codec, bucket, key, env.listing.GetOr(""), env.listingWrite);
  }

  lemma AdvanceLocal(codec: Codec, bucket: Objects, job: Job, pc: Pc, env: Env)
    requires codec.Ideal() && GoodBucket(codec, bucket) && job.Valid() && (pc.Start? || pc.Dumping? || pc.Ended?)
    ensures var r := Advance(codec, bucket, job, pc, env);
      r.0 == bucket && PcInv(codec, bucket, job, r.1)
  {
    if pc.Dumping? && Dump(codec, job, env).WritingNar? {
      var file := codec.compress(job.compression, env.nar.value);
      assert codec.decompress(job.compression, file) == env.nar.value;
    }
    if pc.Start? && !job.overwrite && CheckOverwrite(codec, bucket, job, env).Merging? {
      assert ReadInfo(codec, bucket, job.info.Digest()).Some?;
    }
  }

  /** Each operation of an uploader keeps the bucket good and whatever anybody relies on in place. */
  lemma AdvanceKeeps(codec: Codec, bucket: Objects, job: Job, pc: Pc, env: Env)
    requires codec.Ideal() && GoodBucket(codec, bucket) && job.Valid() && PcInv(codec, bucket, job, pc)
    ensures var r := Advance(codec, bucket, job, pc, env);
      GoodBucket(codec, r.0) && Preserves(codec, bucket, r.0) && PcInv(codec, r.0, job, r.1)
  {
    match pc
    case Merging(info, text) => PutInfo(codec, bucket, job.info.Digest(), info, text, env.mergeWrite);
    case WritingNar(_, _, _) => AdvanceNar(codec, bucket, job, pc, env);
    case WritingListing(_, _) => AdvanceListing(codec, bucket, job, pc, env);
    case WritingInfo(info, text) => PutInfo(codec, bucket, job.info.Digest(), info, text, env.infoWrite);
    case _ => AdvanceLocal(codec, bucket, job, pc, env);
  }

  // ---- all uploaders ----

  datatype State = State(bucket: Objects, jobs: seq<Job>, pcs: seq<Pc>)

  datatype Step = Begin(job: Job) | Operate(i: nat, env: Env) | Crash(i: nat)

  function Apply(codec: Codec, s: State, step: Step): Option<State>
    requires |s.jobs| == |s.pcs|
  {
    match step
    case Begin(job) => if job.Valid() then Some(s.(jobs := s.jobs + [job], pcs := s.pcs + [Start])) else None
    case Operate(i, env) =>
      if i >= |s.pcs| then None
      else
        var r := Advance(codec, s.bucket, s.jobs[i], s.pcs[i], env);
        Some(s.(bucket := r.0, pcs := s.pcs[i := r.1]))
    case Crash(i) => if i < |s.pcs| then Some(s.(pcs := s.pcs[i := Ended(Crashed)])) else None
  }

  ghost predicate Inv(codec: Codec, s: State) {
    && |s.jobs| == |s.pcs| && GoodBucket(codec, s.bucket)
    && forall i :: 0 <= i < |s.jobs| ==> s.jobs[i].Valid() && PcInv(codec, s.bucket, s.jobs[i], s.pcs[i])
  }

  lemma StepKeepsInv(codec: Codec, s: State, step: Step)
    requires codec.Ideal() && Inv(codec, s) && Apply(codec, s, step).Some?
    ensures Inv(codec, Apply(codec, s, step).value)
    ensures Preserves(codec, s.bucket, Apply(codec, s, step).value.bucket)
  {
    var s' := Apply(codec, s, step).value;
    if step.Operate? {
      AdvanceKeeps(codec, s.bucket, s.jobs[step.i], s.pcs[step.i], step.env);
      forall j | 0 <= j < |s'.jobs| ensures s'.jobs[j].Valid() && PcInv(codec, s'.bucket, s'.jobs[j], s'.pcs[j]) {
        if j != step.i {
          PcInvStable(codec, s.bucket, s'.bucket, s.jobs[j], s.pcs[j]);
        }
      }
    }
  }

  ghost predicate CanStep(codec: Codec, s: State, s': State) {
    |s.jobs| == |s.pcs| && exists step :: Apply(codec, s, step) == Some(s')
  }

  /** A run starts with any good bucket and no uploader. */
  ghost predicate IsRun(codec: Codec, run: seq<State>) {
    && run != [] && GoodBucket(codec, run[0].bucket) && run[0].jobs == [] && run[0].pcs == []
    && forall m, n :: 0 <= m < n < |run| && n == m + 1 ==> CanStep(codec, run[m], run[n])
  }

  /** Under any interleaving of any number of uploaders, forced or not, each possibly stopping anywhere:
      every parseable .narinfo in the bucket names a NAR that is present and is what the .narinfo says. */
  lemma {:induction false} NeverDangling(codec: Codec, run: seq<State>, n: nat)
    requires codec.Ideal() && IsRun(codec, run) && n < |run|
    ensures Inv(codec, run[n]) && NoDangling(codec, run[n].bucket)
    decreases n
  {
    if n == 0 {
    } else {
      NeverDangling(codec, run, n - 1);
      assert CanStep(codec, run[n - 1], run[n]);
      var step :| Apply(codec, run[n - 1], step) == Some(run[n]);
      StepKeepsInv(codec, run[n - 1], step);
    }
  }
}
