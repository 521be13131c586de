/** The cached store objects in the UI's database (uicache.go and its SQL): three related tables that must
    read back as the record that was stored. */
module Cache {
  import opened Sequences
  import opened StoreObjects
  import opened NarInfos
  import opened Orders
  import opened Sorting

  // ---- tables and constraints ----

  /** A row of store_objects; an Option is a nullable column, or one whose NOT NULL is checked on insert. */
  datatype ObjRow = ObjRow(
    name: string,
    url: string,
    compression: string,
    fileHash: Option<Hash>,
    fileSize: Option<int>,
    narHash: Option<Hash>,
    narSize: int,
    deriver: Option<string>,
    ca: Option<string>)
  {
    predicate Ok() {
      && IsName(name) && (fileHash.Some? ==> HashOk(fileHash.value)) && (fileSize.Some? ==> fileSize.value >= 0)
      && narHash.Some? && HashOk(narHash.value) && narSize >= 0
      && (deriver.Some? ==> ParseObject(deriver.value).Some?)
    }

    /** The form in which records are written: what is unknown is null. */
    predicate Canonical() { fileSize != Some(0) && ca != Some("") }
  }

  predicate HashOk(h: Hash) { h.algorithm != "" && h.digest != "" }

  predicate SignatureOk(name: string, data: string) { name != "" && ':' !in name && data != "" }

  /** The directory table, and the object, reference and signature tables by their primary keys. */
  datatype Tables = Tables(
    directory: Option<string>,
    objects: map<string, ObjRow>,
    references: set<(string, string)>,
    signatures: map<(string, string), string>)
  {
    function ReferencesOf(d: string): set<string> { set r | r in references && r.0 == d :: r.1 }

    function SignersOf(d: string): set<string> { set k | k in signatures && k.0 == d :: k.1 }

    /** Column checks and foreign keys. */
    ghost predicate Valid() {
      && (forall d :: d in objects ==> IsDigest(d) && objects[d].Ok())
      && (forall r :: r in references ==> r.0 in objects && ParseObject(r.1).Some?)
      && (forall k :: k in signatures ==> k.0 in objects && SignatureOk(k.1, signatures[k]))
    }
  }

  // ---- writing a record ----

  /** path_base: the last segment of a store path. A store path that is not valid stands for the empty one. */
  function PathBase(p: StorePath): string { if p.obj.Valid() then p.obj.Base() else "." }

  lemma PathBaseParses(p: StorePath)
    ensures ParseObject(PathBase(p)) == if p.obj.Valid() then Some(p.obj) else None
  {
    ParseBase(p.obj);
  }

  function SignatureName(s: Signature): string { s.name }

  function RowOf(info: NARInfo): ObjRow {
    ObjRow(info.storePath.obj.name, info.url, info.compression, info.fileHash,
           if info.fileSize > 0 then Some(info.fileSize) else None,
           info.narHash, info.narSize,
           if info.deriver.Some? then Some(PathBase(info.deriver.value)) else None,
           if info.ca == "" then None else Some(info.ca))
  }

  /** The records the schema accepts. */
  ghost predicate Storable(info: NARInfo) {
    && info.storePath.obj.Valid() && RowOf(info).Ok()
    && ReferencesOk(info.references) && SignaturesOk(info.sigs)
  }

  ghost predicate ReferencesOk(paths: seq<StorePath>) {
    (forall i :: 0 <= i < |paths| ==> paths[i].obj.Valid()) && DistinctKeys(PathBase, paths)
  }

  ghost predicate SignaturesOk(sigs: seq<Signature>) {
    (forall i :: 0 <= i < |sigs| ==> SignatureOk(sigs[i].name, sigs[i].data)) && DistinctKeys(SignatureName, sigs)
  }

  ghost function Upserted(t: Tables, info: NARInfo): Tables {
    var d := info.Digest();
    Tables(t.directory,
           t.objects[d := RowOf(info)],
           WithoutReferences(t.references, d) + ReferenceRows(d, info.references),
           WithSignatures(WithoutSignatures(t.signatures, d), d, info.sigs))
  }

  function WithoutReferences(rows: set<(string, string)>, d: string): set<(string, string)> {
    set r | r in rows && r.0 != d
  }

  function ReferenceRows(d: string, paths: seq<StorePath>): set<(string, string)> {
    set i | 0 <= i < |paths| :: (d, PathBase(paths[i]))
  }

  function WithoutSignatures(m: map<(string, string), string>, d: string): map<(string, string), string> {
    map k | k in m && k.0 != d :: m[k]
  }

  function WithSignatures(m: map<(string, string), string>, d: string, sigs: seq<Signature>)
    : map<(string, string), string>
  {
    if sigs == [] then m
    else
      var last := sigs[|sigs| - 1];
      WithSignatures(m, d, sigs[..|sigs| - 1])[(d, last.name) := last.data]
  }

  // ---- reading a record ----

  datatype Read = Missing | Corrupt | Found(info: NARInfo)

  function Reroot(dir: string, base: string): StorePath {
    StorePath(dir, ParseObject(base).GetOr(ObjectName("", "")))
  }

  function RerootAll(dir: string, bases: seq<string>): (r: seq<StorePath>) {
    seq(|bases|, i requires 0 <= i < |bases| => Reroot(dir, bases[i]))
  }

  function ReadSignatures(t: Tables, d: string, names: seq<string>): (r: seq<Signature>)
    requires forall i :: 0 <= i < |names| ==> (d, names[i]) in t.signatures
  {
    seq(|names|, i requires 0 <= i < |names| => Signature(names[i], t.signatures[(d, names[i])]))
  }

  /** The row of the narinfo view for `d`, given its references and signatures in order. */
  function RowInfo(t: Tables, dir: string, d: string, references: seq<string>, signers: seq<string>): NARInfo
    requires d in t.objects
    requires forall i :: 0 <= i < |signers| ==> (d, signers[i]) in t.signatures
  {
    var row := t.objects[d];
    NARInfo(StorePath(dir, ObjectName(d, row.name)), row.url, row.compression, row.fileHash, row.fileSize.GetOr(-1),
            row.narHash, row.narSize, RerootAll(dir, references),
            if row.deriver.Some? then Some(Reroot(dir, row.deriver.value)) else None,
            ReadSignatures(t, d, signers), row.ca.GetOr(""), "")
  }

  /** Reading needs a cached store directory and a compression type that this program knows. */
  ghost function View(t: Tables, known: set<string>, d: string): Read {
    if d !in t.objects then Missing
    else if t.directory.None? || t.objects[d].compression !in known then Corrupt
    else
      Found(RowInfo(t, t.directory.value, d, SortedReferences(t, d), SignersInOrder(t, d)))
  }

  ghost function SortedReferences(t: Tables, d: string): (r: seq<string>)
    ensures StrictTotalOrder(Less) && r == Sorted(Less, t.ReferencesOf(d))
  {
    ByteOrderIsTotal();
    Sorted(Less, t.ReferencesOf(d))
  }

  ghost function SignersInOrder(t: Tables, d: string): (r: seq<string>)
    ensures StrictTotalOrder(Less) && r == Sorted(Less, t.SignersOf(d))
    ensures forall i :: 0 <= i < |r| ==> (d, r[i]) in t.signatures
  {
    ByteOrderIsTotal();
    var r := Sorted(Less, t.SignersOf(d));
    assert forall i :: 0 <= i < |r| ==> r[i] in r && r[i] in t.SignersOf(d);
    r
  }

  /** What the cache keeps of a record. */
  function Normalise(info: NARInfo, dir: string): NARInfo {
    info.(
      storePath := info.storePath.(dir := dir),
      fileSize := if info.fileSize > 0 then info.fileSize else -1,
      references := MoveAll(dir, SortBy(PathBase, info.references)),
      deriver := if info.deriver.Some? then Some(info.deriver.value.(dir := dir)) else None,
      sigs := SortBy(SignatureName, info.sigs),
      system := "")
  }

  function MoveAll(dir: string, paths: seq<StorePath>): (r: seq<StorePath>)
    ensures |r| == |paths|
    ensures forall i :: 0 <= i < |r| ==> r[i] == paths[i].(dir := dir)
  {
    seq(|paths|, i requires 0 <= i < |paths| => paths[i].(dir := dir))
  }

  // ---- laws ----

  lemma {:induction false} SignaturesWritten(m: map<(string, string), string>, d: string, sigs: seq<Signature>,
      k: (string, string))
    requires DistinctKeys(SignatureName, sigs)
    ensures var r := WithSignatures(m, d, sigs);
      && (k in r <==> k in m || (k.0 == d && k.1 in KeySet(SignatureName, sigs)))
      && (k in r && !(k.0 == d && k.1 in KeySet(SignatureName, sigs)) ==> r[k] == m[k])
      && forall i :: 0 <= i < |sigs| && k == (d, sigs[i].name) ==> k in r && r[k] == sigs[i].data
  {
    if sigs == [] {
    } else {
      var n := |sigs| - 1;
      var front := sigs[..n];
      SignaturesWritten(m, d, front, k);
      assert forall i :: 0 <= i < n ==> front[i] == sigs[i];
      assert k.1 in KeySet(SignatureName, sigs) <==> k.1 in KeySet(SignatureName, front) || k.1 == sigs[n].name;
      assert forall i :: 0 <= i < n ==> SignatureName(sigs[i]) != SignatureName(sigs[n]);
    }
  }

  lemma ReferencesWritten(t: Tables, info: NARInfo)
    ensures Upserted(t, info).ReferencesOf(info.Digest()) == KeySet(PathBase, info.references)
  {
    var d, r, bases := info.Digest(), Upserted(t, info).ReferencesOf(info.Digest()), KeySet(PathBase, info.references);
    forall b ensures b in r <==> b in bases {
      if b in r { assert (d, b) in Upserted(t, info).references; }
      if b in bases {
        var i :| 0 <= i < |info.references| && PathBase(info.references[i]) == b;
        assert (d, b) in Upserted(t, info).references;
      }
    }
  }

  lemma SignersWritten(t: Tables, info: NARInfo)
    requires Storable(info)
    ensures Upserted(t, info).SignersOf(info.Digest()) == KeySet(SignatureName, info.sigs)
  {
    var d, u := info.Digest(), Upserted(t, info);
    forall b ensures b in u.SignersOf(d) <==> b in KeySet(SignatureName, info.sigs) {
      SignaturesWritten(WithoutSignatures(t.signatures, d), d, info.sigs, (d, b));
      assert b in u.SignersOf(d) <==> (d, b) in u.signatures;
    }
  }

  /** Reading sorted references back gives the references, sorted and moved to the store directory. */
  lemma ReferencesReadBack(dir: string, references: seq<StorePath>)
    requires forall i :: 0 <= i < |references| ==> references[i].obj.Valid()
    requires DistinctKeys(PathBase, references)
    ensures StrictTotalOrder(Less)
    ensures RerootAll(dir, Sorted(Less, KeySet(PathBase, references))) == MoveAll(dir, SortBy(PathBase, references))
  {
    SortByIsSorted(PathBase, references);
    var sorted := SortBy(PathBase, references);
    forall i | 0 <= i < |sorted| ensures Reroot(dir, Keys(PathBase, sorted)[i]) == sorted[i].(dir := dir) {
      SortByMember(PathBase, references, sorted[i]);
      PathBaseParses(sorted[i]);
    }
  }

  lemma SignaturesReadBack(t: Tables, info: NARInfo)
    requires Storable(info)
    ensures ReadSignatures(Upserted(t, info), info.Digest(), SignersInOrder(Upserted(t, info), info.Digest()))
         == SortBy(SignatureName, info.sigs)
  {
    var d, u, sorted := info.Digest(), Upserted(t, info), SortBy(SignatureName, info.sigs);
    SignersWritten(t, info);
    SortByIsSorted(SignatureName, info.sigs);
    assert SignersInOrder(u, d) == Keys(SignatureName, sorted);
    forall i | 0 <= i < |sorted| ensures u.signatures[(d, sorted[i].name)] == sorted[i].data {
      SortByMember(SignatureName, info.sigs, sorted[i]);
      SignaturesWritten(WithoutSignatures(t.signatures, d), d, info.sigs, (d, sorted[i].name));
    }
  }

  lemma FieldsReadBack(t: Tables, dir: string, info: NARInfo, references: seq<string>, signers: seq<string>)
    requires info.Digest() in t.objects && t.objects[info.Digest()] == RowOf(info)
    requires info.deriver.Some? ==> info.deriver.value.obj.Valid()
    requires forall i :: 0 <= i < |signers| ==> (info.Digest(), signers[i]) in t.signatures
    requires RerootAll(dir, references) == MoveAll(dir, SortBy(PathBase, info.references))
    requires ReadSignatures(t, info.Digest(), signers) == SortBy(SignatureName, info.sigs)
    ensures RowInfo(t, dir, info.Digest(), references, signers) == Normalise(info, dir)
  {
    if info.deriver.Some? {
      PathBaseParses(info.deriver.value);
    }
  }

  /** A stored record reads back as itself, normalised. */
  lemma WriteThenRead(t: Tables, known: set<string>, info: NARInfo)
    requires Storable(info) && t.directory.Some? && info.compression in known
    ensures View(Upserted(t, info), known, info.Digest()) == Found(Normalise(info, t.directory.value))
  {
    var dir, u, d := t.directory.value, Upserted(t, info), info.Digest();
    ReferencesWritten(t, info);
    ReferencesReadBack(dir, info.references);
    SignaturesReadBack(t, info);
    if info.deriver.Some? {
      PathBaseParses(info.deriver.value);
    }
    FieldsReadBack(u, dir, info, SortedReferences(u, d), SignersInOrder(u, d));
  }

  /** Storing a record keeps every constraint. */
  lemma UpsertKeepsValid(t: Tables, info: NARInfo)
    requires t.Valid() && Storable(info)
    ensures Upserted(t, info).Valid()
  {
    var d, u := info.Digest(), Upserted(t, info);
    forall r | r in u.references ensures r.0 in u.objects && ParseObject(r.1).Some? {
      if r !in t.references {
        var i :| 0 <= i < |info.references| && r == (d, PathBase(info.references[i]));
        PathBaseParses(info.references[i]);
      }
    }
    forall k | k in u.signatures ensures k.0 in u.objects && SignatureOk(k.1, u.signatures[k]) {
      SignaturesWritten(WithoutSignatures(t.signatures, d), d, info.sigs, k);
    }
  }

  /** All rows about one object. */
  function Only(t: Tables, d: string): Tables {
    Tables(t.directory,
           map k | k in t.objects && k == d :: t.objects[k],
           set r | r in t.references && r.0 == d,
           map k | k in t.signatures && k.0 == d :: t.signatures[k])
  }

  /** What is read for an object depends on the rows about it alone. */
  lemma ViewOfOnly(t: Tables, known: set<string>, d: string)
    ensures View(Only(t, d), known, d) == View(t, known, d)
  {
    assert Only(t, d).ReferencesOf(d) == t.ReferencesOf(d);
    assert Only(t, d).SignersOf(d) == t.SignersOf(d);
    if View(t, known, d).Found? {
      RowOfOnly(t, t.directory.value, d, SortedReferences(t, d), SignersInOrder(t, d));
    }
  }

  lemma RowOfOnly(t: Tables, dir: string, d: string, references: seq<string>, signers: seq<string>)
    requires d in t.objects
    requires forall i :: 0 <= i < |signers| ==> (d, signers[i]) in t.signatures
    ensures RowInfo(Only(t, d), dir, d, references, signers) == RowInfo(t, dir, d, references, signers)
  {
  }

  lemma OnlySignaturesWritten(m: map<(string, string), string>, info: NARInfo, d: string)
    requires DistinctKeys(SignatureName, info.sigs)
    ensures var w := WithSignatures(WithoutSignatures(m, info.Digest()), info.Digest(), info.sigs);
      (map k | k in w && k.0 == d :: w[k])
      == if d == info.Digest() then WithSignatures(map[], d, info.sigs) else map k | k in m && k.0 == d :: m[k]
  {
    var own := info.Digest();
    var w, alone := WithSignatures(WithoutSignatures(m, own), own, info.sigs), WithSignatures(map[], own, info.sigs);
    forall k ensures k in w && k.0 == own <==> k in alone
             ensures k in alone ==> w[k] == alone[k]
             ensures k.0 != own ==> (k in w <==> k in m) && (k in w ==> w[k] == m[k]) {
      SignaturesWritten(WithoutSignatures(m, own), own, info.sigs, k);
      SignaturesWritten(map[], own, info.sigs, k);
      if k.0 == own && k.1 in KeySet(SignatureName, info.sigs) {
        var i :| 0 <= i < |info.sigs| && SignatureName(info.sigs[i]) == k.1;
        assert k == (own, info.sigs[i].name);
      }
    }
  }

  lemma OnlyReferencesWritten(rows: set<(string, string)>, own: string, paths: seq<StorePath>, d: string)
    ensures (set r | r in WithoutReferences(rows, own) + ReferenceRows(own, paths) && r.0 == d)
         == if d == own then WithoutReferences({}, own) + ReferenceRows(own, paths) else set r | r in rows && r.0 == d
  {
  }

  /** Storing a record replaces all rows about its object, whatever they were, and leaves the rows about every
      other object as they are. */
  lemma UpsertFrame(t: Tables, info: NARInfo, d: string)
    requires Storable(info)
    ensures Only(Upserted(t, info), d)
         == if d == info.Digest() then Upserted(Tables(t.directory, map[], {}, map[]), info) else Only(t, d)
  {
    OnlySignaturesWritten(t.signatures, info, d);
    OnlyReferencesWritten(t.references, info.Digest(), info.references, d);
    assert WithoutSignatures(map[], info.Digest()) == map[];
  }

  lemma ReadReferences(t: Tables, dir: string, d: string)
    requires t.Valid()
    ensures var refs := SortedReferences(t, d);
      var paths := RerootAll(dir, refs);
      && (forall i :: 0 <= i < |refs| ==> paths[i].obj.Valid() && PathBase(paths[i]) == refs[i])
      && DistinctKeys(PathBase, paths)
  {
    var refs := SortedReferences(t, d);
    forall i | 0 <= i < |refs| ensures ParseObject(refs[i]).Some? {
      assert refs[i] in refs && (d, refs[i]) in t.references;
    }
    forall i, j | 0 <= i < j < |refs| ensures refs[i] != refs[j] { assert Less(refs[i], refs[j]); }
  }

  lemma ReadSigners(t: Tables, d: string)
    requires t.Valid()
    ensures var sigs := ReadSignatures(t, d, SignersInOrder(t, d));
      && (forall i :: 0 <= i < |sigs| ==> SignatureOk(sigs[i].name, sigs[i].data))
      && DistinctKeys(SignatureName, sigs)
  {
    var signers := SignersInOrder(t, d);
    forall i, j | 0 <= i < j < |signers| ensures signers[i] != signers[j] { assert Less(signers[i], signers[j]); }
  }

  lemma ReadIsStorable(t: Tables, known: set<string>, d: string)
    requires t.Valid() && View(t, known, d).Found?
    ensures Storable(View(t, known, d).info)
  {
    ReadReferences(t, t.directory.value, d);
    ReadSigners(t, d);
  }

  lemma ReadRow(t: Tables, known: set<string>, d: string)
    requires t.Valid() && View(t, known, d).Found?
    ensures RowOf(View(t, known, d).info) == t.objects[d] <==> t.objects[d].Canonical()
  {
  }

  /** Storing again what was read is accepted, and changes nothing exactly when the row is in the form in
      which records are written. */
  lemma ReadThenWrite(t: Tables, known: set<string>, d: string)
    requires t.Valid() && View(t, known, d).Found?
    ensures var info := View(t, known, d).info;
      info.Digest() == d && Storable(info) && (Upserted(t, info) == t <==> t.objects[d].Canonical())
  {
    var info, refs := View(t, known, d).info, SortedReferences(t, d);
    ReadIsStorable(t, known, d);
    ReadReferences(t, t.directory.value, d);
    assert info.references == RerootAll(t.directory.value, refs);
    SameReferences(t, info, refs);
    SameSignatures(t, info);
    ReadRow(t, known, d);
  }

  lemma SameReferences(t: Tables, info: NARInfo, refs: seq<string>)
    requires forall b :: b in refs <==> b in t.ReferencesOf(info.Digest())
    requires |refs| == |info.references| && forall i :: 0 <= i < |refs| ==> PathBase(info.references[i]) == refs[i]
    ensures Upserted(t, info).references == t.references
  {
    var d, u := info.Digest(), Upserted(t, info);
    forall r ensures r in u.references <==> r in t.references {
      if r in t.references && r.0 == d {
        assert r.1 in t.ReferencesOf(d);
        var i :| 0 <= i < |refs| && refs[i] == r.1;
        assert (d, PathBase(info.references[i])) == r;
      }
      if i :| 0 <= i < |refs| && r == (d, PathBase(info.references[i])) {
        assert refs[i] in refs;
      }
    }
  }

  lemma SameSignatures(t: Tables, info: NARInfo)
    requires info.sigs == ReadSignatures(t, info.Digest(), SignersInOrder(t, info.Digest()))
    requires DistinctKeys(SignatureName, info.sigs)
    ensures Upserted(t, info).signatures == t.signatures
  {
    var d, u, signers := info.Digest(), Upserted(t, info), SignersInOrder(t, info.Digest());
    forall k ensures k in u.signatures <==> k in t.signatures
             ensures k in u.signatures ==> u.signatures[k] == t.signatures[k] {
      SignaturesWritten(WithoutSignatures(t.signatures, d), d, info.sigs, k);
      if k in t.signatures && k.0 == d {
        assert k.1 in t.SignersOf(d) && k.1 in signers;
        var i :| 0 <= i < |signers| && signers[i] == k.1;
        assert k == (d, info.sigs[i].name);
      }
      if k.0 == d && k.1 in KeySet(SignatureName, info.sigs) {
        var i :| 0 <= i < |info.sigs| && SignatureName(info.sigs[i]) == k.1;
        assert (d, signers[i]) in t.signatures;
      }
    }
  }

  lemma MoveSorted(dir: string, paths: seq<StorePath>)
    requires SortedBy(PathBase, paths)
    ensures MoveAll(dir, SortBy(PathBase, MoveAll(dir, paths))) == MoveAll(dir, paths)
  {
    var moved := MoveAll(dir, paths);
    assert SortedBy(PathBase, moved) by {
      forall i, j | 0 <= i < j < |moved| ensures LessEq(PathBase(moved[i]), PathBase(moved[j])) {
        assert LessEq(PathBase(paths[i]), PathBase(paths[j]));
      }
    }
    SortByIdempotent(PathBase, moved);
  }

  lemma NormaliseIdempotent(info: NARInfo, dir: string)
    ensures Normalise(Normalise(info, dir), dir) == Normalise(info, dir)
  {
    SortBySorts(PathBase, info.references);
    SortBySorts(SignatureName, info.sigs);
    MoveSorted(dir, SortBy(PathBase, info.references));
    SortByIdempotent(SignatureName, SortBy(SignatureName, info.sigs));
  }

  /** Records that the cache keeps as they are. */
  ghost predicate IsNormal(info: NARInfo, dir: string) {
    && info.storePath.dir == dir && (info.deriver.Some? ==> info.deriver.value.dir == dir)
    && (forall i :: 0 <= i < |info.references| ==> info.references[i].dir == dir)
    && (info.fileSize > 0 || info.fileSize == -1) && info.system == ""
    && SortedBy(PathBase, info.references) && SortedBy(SignatureName, info.sigs)
  }

  lemma MovedIsSameIff(dir: string, paths: seq<StorePath>)
    ensures MoveAll(dir, SortBy(PathBase, paths)) == paths <==>
      SortedBy(PathBase, paths) && forall i :: 0 <= i < |paths| ==> paths[i].dir == dir
  {
    var moved := MoveAll(dir, SortBy(PathBase, paths));
    SortBySorts(PathBase, paths);
    if moved == paths {
      forall i, j | 0 <= i < j < |paths| ensures LessEq(PathBase(paths[i]), PathBase(paths[j])) {
        var sorted := SortBy(PathBase, paths);
        assert PathBase(moved[i]) == PathBase(sorted[i]) && PathBase(moved[j]) == PathBase(sorted[j]);
      }
    }
    if SortedBy(PathBase, paths) {
      SortByIdempotent(PathBase, paths);
    }
  }

  /** Exactly these records are equal to their normal form. */
  lemma NormaliseIsIdentityIff(info: NARInfo, dir: string)
    ensures Normalise(info, dir) == info <==> IsNormal(info, dir)
  {
    MovedIsSameIff(dir, info.references);
    SortBySorts(SignatureName, info.sigs);
    if SortedBy(SignatureName, info.sigs) {
      SortByIdempotent(SignatureName, info.sigs);
    }
  }

  /** A record that the cache accepts and changes: its references are not in order. */
  lemma NotNormal(dir: string) returns (info: NARInfo)
    ensures Storable(info) && info.compression == "none" && info.storePath.dir == dir
    ensures Normalise(info, dir) != info
  {
    var zeros, ones := seq(DIGEST_LENGTH, _ => '0'), seq(DIGEST_LENGTH, _ => '1');
    var a, b := ObjectName(zeros, "a"), ObjectName(ones, "b");
    info := NARInfo(StorePath(dir, a), "nar/a.nar", "none", None, 1, Some(Hash(SHA256, "h")), 1,
                    [StorePath(dir, b), StorePath(dir, a)], None, [], "", "");
    assert PathBase(info.references[0]) == b.Base() && b.Base()[0] == '1';
    assert PathBase(info.references[1]) == a.Base() && a.Base()[0] == '0';
    NormaliseIsIdentityIff(info, dir);
  }

  /** What normalising does: the signatures and, moved to the directory, the references are the same ones, now in
      order; an unknown size becomes -1, the system is dropped, and all else stays. */
  lemma NormaliseMeaning(info: NARInfo, dir: string)
    ensures var n := Normalise(info, dir);
      && n.storePath == StorePath(dir, info.storePath.obj) && n.url == info.url && n.compression == info.compression
      && n.fileHash == info.fileHash && n.narHash == info.narHash && n.narSize == info.narSize && n.ca == info.ca
      && n.fileSize == (if info.fileSize <= 0 then -1 else info.fileSize) && n.system == ""
      && (n.deriver.Some? <==> info.deriver.Some?)
      && (n.deriver.Some? ==> n.deriver.value == StorePath(dir, info.deriver.value.obj))
      && multiset(n.sigs) == multiset(info.sigs) && SortedBy(SignatureName, n.sigs)
      && multiset(n.references) == multiset(MoveAll(dir, info.references)) && SortedBy(PathBase, n.references)
  {
    SortByPermutes(SignatureName, info.sigs);
    SortBySorts(SignatureName, info.sigs);
    var sorted, n := SortBy(PathBase, info.references), Normalise(info, dir);
    SortByPermutes(PathBase, info.references);
    SortBySorts(PathBase, info.references);
    SameAfterMoving(dir, sorted, info.references);
    forall i, j | 0 <= i < j < |sorted| ensures LessEq(PathBase(n.references[i]), PathBase(n.references[j])) {
      assert LessEq(PathBase(sorted[i]), PathBase(sorted[j]));
    }
  }

  lemma {:induction false} SameAfterMoving(dir: string, a: seq<StorePath>, b: seq<StorePath>)
    requires multiset(a) == multiset(b)
    ensures multiset(MoveAll(dir, a)) == multiset(MoveAll(dir, b))
    decreases |a|
  {
    if a == [] {
      assert |multiset(b)| == 0;
    } else {
      assert a[0] in multiset(b);
      var j :| 0 <= j < |b| && b[j] == a[0];
      var front, back := b[..j], b[j + 1..];
      TakeOut(a, b, j);
      SameAfterMoving(dir, a[1..], front + back);
      assert MoveAll(dir, a) == [MoveAll(dir, a)[0]] + MoveAll(dir, a[1..]);
      MoveTaken(dir, b, j);
    }
  }

  lemma TakeOut(a: seq<StorePath>, b: seq<StorePath>, j: nat)
    requires a != [] && j < |b| && b[j] == a[0] && multiset(a) == multiset(b)
    ensures multiset(a[1..]) == multiset(b[..j] + b[j + 1..])
  {
    var left := b[..j] + b[j + 1..];
    assert a == [a[0]] + a[1..] && b == b[..j] + [b[j]] + b[j + 1..];
    assert multiset(a[1..]) == multiset(a) - multiset{a[0]};
    assert multiset(b) == multiset(left) + multiset{a[0]};
    assert multiset(left) == multiset(b) - multiset{a[0]};
  }

  lemma MoveTaken(dir: string, b: seq<StorePath>, j: nat)
    requires j < |b|
    ensures multiset(MoveAll(dir, b)) == multiset{b[j].(dir := dir)} + multiset(MoveAll(dir, b[..j] + b[j + 1..]))
  {
    var m := MoveAll(dir, b);
    assert m == m[..j] + [m[j]] + m[j + 1..];
    assert MoveAll(dir, b[..j] + b[j + 1..]) == m[..j] + m[j + 1..];
  }

  /** Which records have to be accepted: nothing is asked of the URL, the compression type, the file size, the content
      address and the system. */
  lemma StorableMeaning(info: NARInfo)
    ensures Storable(info) <==>
      && info.storePath.obj.Valid() && (info.deriver.Some? ==> info.deriver.value.obj.Valid())
      && info.narHash.Some? && HasBytes(info.narHash.value) && info.narSize >= 0
      && (info.fileHash.Some? ==> HasBytes(info.fileHash.value))
      && (forall i :: 0 <= i < |info.references| ==> info.references[i].obj.Valid())
      && (forall i, j :: 0 <= i < j < |info.references| ==> info.references[i].obj != info.references[j].obj)
      && (forall i :: 0 <= i < |info.sigs| ==>
            info.sigs[i].name != "" && ':' !in info.sigs[i].name && info.sigs[i].data != "")
      && (forall i, j :: 0 <= i < j < |info.sigs| ==> info.sigs[i].name != info.sigs[j].name)
  {
    if info.deriver.Some? {
      PathBaseParses(info.deriver.value);
    }
    if forall i :: 0 <= i < |info.references| ==> info.references[i].obj.Valid() {
      DistinctObjects(info.references);
    }
  }

  predicate HasBytes(h: Hash) { h.algorithm != "" && h.digest != "" }

  lemma DistinctObjects(paths: seq<StorePath>)
    requires forall i :: 0 <= i < |paths| ==> paths[i].obj.Valid()
    ensures DistinctKeys(PathBase, paths) <==> forall i, j :: 0 <= i < j < |paths| ==> paths[i].obj != paths[j].obj
  {
    forall i, j | 0 <= i < j < |paths|
      ensures PathBase(paths[i]) == PathBase(paths[j]) <==> paths[i].obj == paths[j].obj {
      PathBaseParses(paths[i]);
      PathBaseParses(paths[j]);
    }
  }

  // ---- the read-through lookup ----

  /** Whether the database takes a new store directory, and a new record. */
  datatype Writable = Writable(directory: bool, record: bool)

  /** The store directory a lookup works with: the saved one, or the underlying store's. */
  function DirectoryFor(t: Tables, reply: Option<string>): Option<string> {
    if t.directory.Some? then t.directory else reply
  }

  function WithDirectory(t: Tables, reply: Option<string>, w: Writable): Tables {
    if w.directory then t.(directory := DirectoryFor(t, reply)) else t
  }

  /** The tables after a lookup and its answer, given what the underlying store would reply. */
  ghost function LookUp(t: Tables, known: set<string>, digest: string, dirReply: Option<string>,
      infoReply: Option<NARInfo>, w: Writable)
    : (Tables, Option<NARInfo>)
  {
    var dir, t' := DirectoryFor(t, dirReply), WithDirectory(t, dirReply, w);
    if dir.None? then (t', None)
    else
      match View(t', known, digest)
      case Found(info) => (t', Some(info))
      case Corrupt => (t', None)
      case Missing =>
        if infoReply.None? || infoReply.value.storePath.dir != dir.value then (t', None)
        else (if w.record && Storable(infoReply.value) then Upserted(t', infoReply.value) else t', infoReply)
  }

  /** A record of the store directory that is not cached is answered as the store has it, whether or not it can be
      saved; what is saved, if anything, is that record. A record of another directory is an error. */
  lemma MissIsAnswered(t: Tables, known: set<string>, digest: string, dir: string, info: NARInfo, w: Writable)
    requires digest !in t.objects && (t.directory == None || t.directory == Some(dir))
    ensures var (t', answer) := LookUp(t, known, digest, Some(dir), Some(info), w);
      && (answer == Some(info) <==> info.storePath.dir == dir) && (answer != Some(info) ==> answer == None)
      && (info.Digest() in t'.objects && t'.objects[info.Digest()] == RowOf(info)
            <== w.record && info.storePath.dir == dir && Storable(info))
      && (!w.record || info.storePath.dir != dir || !Storable(info) ==> t'.objects == t.objects)
  {
  }

  /** A cached record is answered from the cache alone. */
  lemma HitIsAnswered(t: Tables, known: set<string>, digest: string, dirReply: Option<string>,
                      infoReply: Option<NARInfo>, w: Writable)
    requires t.directory.Some? && digest in t.objects
    ensures var (t', answer) := LookUp(t, known, digest, dirReply, infoReply, w);
      && t' == t && (answer.Some? <==> t.objects[digest].compression in known)
      && (answer.Some? ==> View(t, known, digest) == Found(answer.value) && answer.value.Digest() == digest)
  {
  }

  /** Once a lookup has cached a record, every later lookup answers with that record normalised, whatever the
      underlying store would say by then, and changes nothing more. */
  lemma CachedAnswerStays(t: Tables, known: set<string>, digest: string, dir1: Option<string>, reply1: Option<NARInfo>,
                          dir2: Option<string>, reply2: Option<NARInfo>, w1: Writable, w2: Writable)
    requires (t.directory.Some? || w1.directory) && w1.record
    requires View(WithDirectory(t, dir1, w1), known, digest).Missing?
    requires LookUp(t, known, digest, dir1, reply1, w1).1.Some?
    requires reply1.Some? ==>
      reply1.value.Digest() == digest && Storable(reply1.value) && reply1.value.compression in known
    ensures var (t1, answer) := LookUp(t, known, digest, dir1, reply1, w1);
      && LookUp(t1, known, digest, dir2, reply2, w2) == (t1, Some(Normalise(reply1.value, t1.directory.value)))
      && answer == reply1 && reply1.value.storePath.dir == t1.directory.value
      && (LookUp(t1, known, digest, dir2, reply2, w2).1 == answer <==> IsNormal(reply1.value, t1.directory.value))
  {
    NormaliseIsIdentityIff(reply1.value, reply1.value.storePath.dir);
    WriteThenRead(WithDirectory(t, dir1, w1), known, reply1.value);
  }

  // ---- the database connection ----

  /** Text values in ascending order. */
  method OrderedByText(values: set<string>) returns (r: seq<string>)
    ensures StrictTotalOrder(Less) && r == Sorted(Less, values)
  {
    var remaining, found := values, [];
    while remaining != {}
      invariant remaining <= values && forall v :: v in found <==> v in values - remaining
      invariant DistinctKeys(Itself, found)
    {
      var v :| v in remaining;
      assert forall i :: 0 <= i < |found| ==> found[i] in found;
      remaining, found := remaining - {v}, found + [v];
    }
    r := SortBy(Itself, found);
    SortByIsSorted(Itself, found);
    assert Keys(Itself, r) == r;
    assert KeySet(Itself, found) == values by {
      forall v ensures v in KeySet(Itself, found) <==> v in values {
        assert v in found <==> exists i :: 0 <= i < |found| && Itself(found[i]) == v;
      }
    }
  }

  function Itself(s: string): string { s }

  class UICache {
    const known: set<string>
    var directory: Option<string>
    var objects: map<string, ObjRow>
    var references: set<(string, string)>
    var signatures: map<(string, string), string>

    function Rows(): Tables reads this { Tables(directory, objects, references, signatures) }

    ghost predicate Valid() reads this { Rows().Valid() }

    constructor (known: set<string>)
      ensures Valid() && this.known == known && Rows() == Tables(None, map[], {}, map[])
    {
      this.known := known;
      directory, objects, references, signatures := None, map[], {}, map[];
    }

    method InsertReferences(d: string, paths: seq<StorePath>) returns (ok: bool)
      requires d in objects && forall r :: r in references ==> r.0 != d
      modifies this`references
      ensures ok <==> ReferencesOk(paths)
      ensures ok ==> references == old(references) + ReferenceRows(d, paths)
    {
      var i := 0;
      ok := true;
      while i < |paths| && ok
        invariant 0 <= i <= |paths|
        invariant ok ==> ReferencesOk(paths[..i]) && references == old(references) + ReferenceRows(d, paths[..i])
        invariant !ok ==> !ReferencesOk(paths)
      {
        var row := (d, PathBase(paths[i]));
        PathBaseParses(paths[i]);
        assert paths[..i + 1] == paths[..i] + [paths[i]];
        if ParseObject(row.1).None? || row in references {
          ok := false;
        } else {
          references := references + {row};
          assert ReferenceRows(d, paths[..i + 1]) == ReferenceRows(d, paths[..i]) + {row};
          assert ReferencesOk(paths[..i + 1]) by {
            forall j | 0 <= j < i ensures PathBase(paths[j]) != PathBase(paths[i]) {
              assert paths[..i][j] == paths[j] && (d, PathBase(paths[j])) in ReferenceRows(d, paths[..i]);
            }
          }
        }
        i := i + 1;
      }
      assert paths[..|paths|] == paths;
    }

    method InsertSignatures(d: string, sigs: seq<Signature>) returns (ok: bool)
      requires d in objects && forall k :: k in signatures ==> k.0 != d
      modifies this`signatures
      ensures ok <==> SignaturesOk(sigs)
      ensures ok ==> signatures == WithSignatures(old(signatures), d, sigs)
    {
      var i := 0;
      ok := true;
      while i < |sigs| && ok
        invariant 0 <= i <= |sigs|
        invariant ok ==> SignaturesOk(sigs[..i]) && signatures == WithSignatures(old(signatures), d, sigs[..i])
        invariant !ok ==> !SignaturesOk(sigs)
      {
        var key := (d, sigs[i].name);
        assert sigs[..i + 1] == sigs[..i] + [sigs[i]];
        SignaturesWritten(old(signatures), d, sigs[..i], key);
        if !SignatureOk(sigs[i].name, sigs[i].data) || key in signatures {
          ok := false;
        } else {
          signatures := signatures[key := sigs[i].data];
          assert sigs[..i + 1][..i] == sigs[..i];
          assert SignaturesOk(sigs[..i + 1]) by {
            forall j | 0 <= j < i ensures SignatureName(sigs[j]) != SignatureName(sigs[i]) {
              assert sigs[..i][j] == sigs[j];
            }
          }
        }
        i := i + 1;
      }
      assert sigs[..|sigs|] == sigs;
    }

    /** The statements of the upsert script. On failure it stops part-way, deletions included. */
    method RunUpsertScript(info: NARInfo) returns (ok: bool)
      requires Valid()
      modifies this`objects, this`references, this`signatures
      ensures ok <==> Storable(info)
      ensures ok ==> Rows() == Upserted(old(Rows()), info)
    {
      PathBaseParses(info.storePath);
      var parsed := ParseObject(PathBase(info.storePath));
      if parsed.None? {
        return false;
      }
      var d := parsed.value.digest;
      references := WithoutReferences(references, d);
      signatures := WithoutSignatures(signatures, d);
      if !RowOf(info).Ok() {
        return false;
      }
      objects := objects[d := RowOf(info)];
      ok := InsertReferences(d, info.references);
      if ok {
        ok := InsertSignatures(d, info.sigs);
      }
    }

    /** A record the schema accepts replaces what the cache has for its object; any other changes nothing,
        although the script deletes before it fails. */
    method UpdateCachedStoreObject(info: NARInfo) returns (ok: bool)
      requires Valid()
      modifies this`objects, this`references, this`signatures
      ensures Valid() && (ok <==> Storable(info))
      ensures Rows() == if ok then Upserted(old(Rows()), info) else old(Rows())
    {
      var savepoint := Rows();
      ok := RunUpsertScript(info);
      if !ok {
        objects, references, signatures := savepoint.objects, savepoint.references, savepoint.signatures;
      } else {
        UpsertKeepsValid(savepoint, info);
      }
    }

    method UpdateCachedStoreDirectory(dir: string)
      modifies this`directory
      ensures directory == Some(dir)
    {
      directory := Some(dir);
    }

    /** A directory that cannot be saved is answered all the same. */
    method CacheInfo(dirReply: Option<string>, w: Writable) returns (dir: Option<string>)
      modifies this`directory
      ensures Rows() == WithDirectory(old(Rows()), dirReply, w) && dir == DirectoryFor(old(Rows()), dirReply)
    {
      dir := directory;
      if dir.None? {
        dir := dirReply;
        if dir.Some? && w.directory {
          UpdateCachedStoreDirectory(dir.value);
        }
      }
    }

    /** Select from the narinfo view, and parse. */
    method SelectRow(d: string) returns (r: Read)
      requires Valid()
      ensures r == View(Rows(), known, d)
    {
      if d !in objects {
        return Missing;
      }
      if directory.None? || objects[d].compression !in known {
        return Corrupt;
      }
      var references := OrderedByText(Rows().ReferencesOf(d));
      var signers := OrderedByText(Rows().SignersOf(d));
      assert signers == SignersInOrder(Rows(), d);
      return Found(RowInfo(Rows(), directory.value, d, references, signers));
    }

    /** Answers from the cache when it can; otherwise asks the store, and caches the answer if it fits. */
    method NARInfo(digest: string, dirReply: Option<string>, infoReply: Option<NARInfo>, w: Writable)
        returns (r: Option<NARInfo>)
      requires Valid()
      modifies this
      ensures Valid() && (Rows(), r) == LookUp(old(Rows()), known, digest, dirReply, infoReply, w)
    {
      var dir := CacheInfo(dirReply, w);
      if dir.None? {
        return None;
      }
      var row := SelectRow(digest);
      match row {
        case Found(info) => return Some(info);
        case Corrupt => return None;
        case Missing =>
          if infoReply.None? || infoReply.value.storePath.dir != dir.value {
            return None;
          }
          if w.record {
            var _ := UpdateCachedStoreObject(infoReply.value);
          }
          return infoReply;
      }
    }
  }
}
