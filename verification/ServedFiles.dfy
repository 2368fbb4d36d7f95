/**
 * The served-file delta registry (packages/sidecar/src/serve.ts), its tables
 * (packages/sidecar/src/store.ts) and the resolution of F-id@hash references
 * (packages/sidecar/src/distill.ts).
 */
module ServedFiles {
  import opened Common

  type SessionId = string
  type Path = string
  type Content = string
  type Digest = string

  /** The hashes and the diff library. `fileId` may collide; `patch` and `apply` obey the apply law. */
  datatype Tools = Tools(
    hash: Content -> Digest,
    fileId: Path -> Digest,
    patch: (Content, Content) -> string,
    apply: (string, Content) -> Content
  )

  ghost predicate ApplyLaw(t: Tools) {
    forall a, b :: t.apply(t.patch(a, b), a) == b
  }

  datatype Row = Row(session: SessionId, path: Path)
  datatype Served = Served(hash: Digest, content: Content)
  datatype Artifact = Artifact(id: string, filePath: Option<Path>, raw: Content)

  /** What a handle denotes: a served file version, or anything else. */
  datatype Ref = FileRef(fileId: Digest, hash: Digest) | OtherRef(id: string)

  // ----- The tables -----

  /** The artifacts of one file, latest first, as `findArtifactIdByFile` scans them. */
  function ArtifactsFor(artifacts: seq<Artifact>, path: Path): (r: seq<Artifact>)
    ensures forall a :: a in r ==> a in artifacts && a.filePath == Some(path)
  {
    if artifacts == [] then []
    else
      (if artifacts[|artifacts| - 1].filePath == Some(path) then [artifacts[|artifacts| - 1]] else [])
      + ArtifactsFor(artifacts[..|artifacts| - 1], path)
  }

  const ARTIFACT_SCAN_LIMIT := 8

  function FirstWithHash(t: Tools, artifacts: seq<Artifact>, hash: Digest, limit: nat): (r: Option<Artifact>)
    ensures r.Some? ==> r.value in artifacts && t.hash(r.value.raw) == hash
  {
    if artifacts == [] || limit == 0 then None
    else if t.hash(artifacts[0].raw) == hash then Some(artifacts[0])
    else FirstWithHash(t, artifacts[1..], hash, limit - 1)
  }

  function FindArtifactIdByFile(t: Tools, artifacts: seq<Artifact>, path: Path, hash: Digest): (r: Option<string>)
    ensures r.Some? ==> exists a :: a in artifacts && a.id == r.value && a.filePath == Some(path) && t.hash(a.raw) == hash
  {
    var found := FirstWithHash(t, ArtifactsFor(artifacts, path), hash, ARTIFACT_SCAN_LIMIT);
    if found.Some? then Some(found.value.id) else None
  }

  function GetArtifact(artifacts: seq<Artifact>, id: string): (r: Option<Artifact>)
    ensures r.Some? ==> r.value in artifacts && r.value.id == id
    ensures r.None? ==> forall a :: a in artifacts ==> a.id != id
  {
    if artifacts == [] then None
    else if artifacts[0].id == id then Some(artifacts[0])
    else GetArtifact(artifacts[1..], id)
  }

  /** The id column is a primary key: a duplicate insert is refused. */
  function Inserted(artifacts: seq<Artifact>, a: Artifact): seq<Artifact> {
    if GetArtifact(artifacts, a.id).Some? then artifacts else artifacts + [a]
  }

  /** The raw behind a file version, fetched by the id found for it. */
  function StoredVersion(t: Tools, artifacts: seq<Artifact>, path: Path, hash: Digest): Option<Content> {
    var id := FindArtifactIdByFile(t, artifacts, path, hash);
    var artifact := if id.Some? then GetArtifact(artifacts, id.value) else None;
    if artifact.Some? then Some(artifact.value.raw) else None
  }

  function RefFor(t: Tools, path: Path, content: Content): Ref {
    FileRef(t.fileId(path), t.hash(content))
  }

  datatype Mode = Full | Unchanged | Diff

  datatype ServeResult = ServeResult(mode: Mode, ref: Ref, text: string)

  function UnchangedText(fileId: Digest, hash: Digest): string {
    "[dcp:file " + fileId + "@" + hash + " unchanged since last serve; zoom or re-read is unnecessary]"
  }

  function ServeResultFor(t: Tools, prior: Option<Served>, path: Path, content: Content): ServeResult {
    if prior.None? then ServeResult(Full, RefFor(t, path, content), content)
    else if prior.value.hash == t.hash(content) then
      ServeResult(Unchanged, RefFor(t, path, content), UnchangedText(t.fileId(path), t.hash(content)))
    else ServeResult(Diff, RefFor(t, path, content), t.patch(prior.value.content, content))
  }

  function Lookup(served: map<Row, Served>, row: Row): Option<Served> {
    if row in served then Some(served[row]) else None
  }

  /** An unchanged file leaves its row alone; the others overwrite it. */
  function ServedAfter(t: Tools, served: map<Row, Served>, row: Row, content: Content): map<Row, Served> {
    if row in served && served[row].hash == t.hash(content) then served
    else served[row := Served(t.hash(content), content)]
  }

  class Store {
    var served: map<Row, Served>
    var artifacts: seq<Artifact>
    const tools: Tools

    constructor (tools: Tools)
      ensures this.tools == tools && served == map[] && artifacts == []
    {
      this.tools := tools;
      served, artifacts := map[], [];
    }

    method RecordServedFile(session: SessionId, path: Path, hash: Digest, content: Content)
      modifies this`served
      ensures served == old(served)[Row(session, path) := Served(hash, content)]
    {
      served := served[Row(session, path) := Served(hash, content)];
    }

    method InsertArtifact(a: Artifact) returns (ok: bool)
      modifies this`artifacts
      ensures ok == (forall b :: b in old(artifacts) ==> b.id != a.id)
      ensures artifacts == if ok then old(artifacts) + [a] else old(artifacts)
      ensures artifacts == Inserted(old(artifacts), a)
    {
      ok := forall b | b in artifacts :: b.id != a.id;
      if ok {
        artifacts := artifacts + [a];
      }
    }

    method ServeFile(session: SessionId, path: Path, content: Content) returns (r: ServeResult)
      modifies this`served
      ensures r == ServeResultFor(tools, Lookup(old(served), Row(session, path)), path, content)
      ensures served == ServedAfter(tools, old(served), Row(session, path), content)
      ensures var row := Row(session, path);
        if row in old(served) && old(served)[row].hash == tools.hash(content) then served == old(served)
        else served == old(served)[row := Served(tools.hash(content), content)]
    {
      var hash := tools.hash(content);
      var ref := FileRef(tools.fileId(path), hash);
      var row := Row(session, path);
      if row !in served {
        RecordServedFile(session, path, hash, content);
        r := ServeResult(Full, ref, content);
      } else if served[row].hash == hash {
        r := ServeResult(Unchanged, ref, UnchangedText(ref.fileId, ref.hash));
      } else {
        var patch := tools.patch(served[row].content, content);
        RecordServedFile(session, path, hash, content);
        r := ServeResult(Diff, ref, patch);
      }
    }

    /**
     * Scans the served rows, in whatever order the table lists them: a stored artifact of a row's
     * path with that hash first, else the registry's own copy when it is that version.
     */
    method ResolveFileRef(ref: Ref, rows: seq<Row>) returns (r: Option<Content>)
      requires forall row :: row in rows <==> row in served
      ensures r == Resolve(tools, served, artifacts, rows, ref)
    {
      if ref.OtherRef? {
        return None;
      }
      for n := 0 to |rows|
        invariant Resolve(tools, served, artifacts, rows, ref) == Resolve(tools, served, artifacts, rows[n..], ref)
      {
        var row := rows[n];
        assert row in rows && rows[n..][1..] == rows[n + 1..];
        if tools.fileId(row.path) != ref.fileId {
          continue;
        }
        var artifactId := FindArtifactIdByFile(tools, artifacts, row.path, ref.hash);
        if artifactId.Some? {
          var artifact := GetArtifact(artifacts, artifactId.value);
          if artifact.Some? {
            return Some(artifact.value.raw);
          }
        }
        if served[row].hash == ref.hash && served[row].content != "" {
          return Some(served[row].content);
        }
      }
      return None;
    }

    /** Whether this store can serve a zoom reference: an artifact id or a file reference. */
    method HoldsRef(ref: Ref, rows: seq<Row>) returns (held: bool)
      requires forall row :: row in rows <==> row in served
      ensures held == ((ref.OtherRef? && exists a :: a in artifacts && a.id == ref.id)
                       || Resolve(tools, served, artifacts, rows, ref).Some?)
    {
      if ref.OtherRef? {
        held := exists a | a in artifacts :: a.id == ref.id;
        return;
      }
      var r := ResolveFileRef(ref, rows);
      held := r.Some?;
    }
  }

  /** `resolveFileRef` over the rows left to scan. */
  function Resolve(
    t: Tools, served: map<Row, Served>, artifacts: seq<Artifact>, rows: seq<Row>, ref: Ref): Option<Content>
    requires forall row :: row in rows ==> row in served
  {
    if ref.OtherRef? || rows == [] then None
    else
      var row := rows[0];
      assert row in rows;
      var stored := StoredVersion(t, artifacts, row.path, ref.hash);
      if t.fileId(row.path) == ref.fileId && stored.Some? then stored
      else if t.fileId(row.path) == ref.fileId && served[row].hash == ref.hash && served[row].content != ""
      then Some(served[row].content)
      else Resolve(t, served, artifacts, rows[1..], ref)
  }

  // ----- Resolution -----

  /** Every row's hash is the hash of its content. */
  ghost predicate HonestRows(t: Tools, served: map<Row, Served>) {
    forall row :: row in served ==> served[row].hash == t.hash(served[row].content)
  }

  lemma ServingKeepsRowsHonest(t: Tools, served: map<Row, Served>, row: Row, content: Content)
    requires HonestRows(t, served)
    ensures HonestRows(t, ServedAfter(t, served, row, content))
  {
  }

  ghost predicate DistinctIds(artifacts: seq<Artifact>) {
    forall i, j :: 0 <= i < j < |artifacts| ==> artifacts[i].id != artifacts[j].id
  }

  lemma InsertingKeepsIdsDistinct(artifacts: seq<Artifact>, a: Artifact)
    requires DistinctIds(artifacts)
    ensures DistinctIds(Inserted(artifacts, a))
  {
  }

  /** Ids being distinct, the artifact fetched is the one that was found. */
  lemma StoredVersionHasTheHash(t: Tools, artifacts: seq<Artifact>, path: Path, hash: Digest)
    requires DistinctIds(artifacts)
    ensures var r := StoredVersion(t, artifacts, path, hash);
            r.Some? ==> t.hash(r.value) == hash && exists a :: a in artifacts && a.raw == r.value
  {
    var id := FindArtifactIdByFile(t, artifacts, path, hash);
    if id.Some? && GetArtifact(artifacts, id.value).Some? {
      var a :| a in artifacts && a.id == id.value && t.hash(a.raw) == hash;
      var b := GetArtifact(artifacts, id.value).value;
      var i :| 0 <= i < |artifacts| && artifacts[i] == a;
      var j :| 0 <= j < |artifacts| && artifacts[j] == b;
      assert a == b;
    }
  }

  lemma {:induction false} HonestTablesResolveHonestly(
    t: Tools, served: map<Row, Served>, artifacts: seq<Artifact>, rows: seq<Row>, ref: Ref)
    requires HonestRows(t, served) && DistinctIds(artifacts) && forall row :: row in rows ==> row in served
    ensures var r := Resolve(t, served, artifacts, rows, ref);
            r.Some? ==> ref.FileRef? && t.hash(r.value) == ref.hash
  {
    hide StoredVersion;
    if ref.FileRef? && rows != [] {
      assert rows[0] in rows;
      StoredVersionHasTheHash(t, artifacts, rows[0].path, ref.hash);
      HonestTablesResolveHonestly(t, served, artifacts, rows[1..], ref);
    }
  }

  /** A row with content answers for its own hash, if no artifact or earlier row does. */
  lemma {:induction false} RowsResolve(
    t: Tools, served: map<Row, Served>, artifacts: seq<Artifact>, rows: seq<Row>, row: Row)
    requires forall r :: r in rows ==> r in served
    requires row in rows && served[row].content != ""
    ensures Resolve(t, served, artifacts, rows, FileRef(t.fileId(row.path), served[row].hash)).Some?
  {
    hide StoredVersion;
    assert rows[0] in rows;
    if rows[0] != row {
      RowsResolve(t, served, artifacts, rows[1..], row);
    }
  }

  // ----- What a reference resolves to, exactly -----

  ghost predicate IsOf(a: Artifact, path: Path) {
    a.filePath == Some(path)
  }

  /** How many artifacts of this path were inserted after position `i`. */
  ghost function LaterCount(artifacts: seq<Artifact>, path: Path, i: nat): nat
    requires i < |artifacts|
    decreases |artifacts| - i
  {
    if i == |artifacts| - 1 then 0
    else (if IsOf(artifacts[i + 1], path) then 1 else 0) + LaterCount(artifacts, path, i + 1)
  }

  /** The latest artifact of this path with this hash, found when fewer than eight of the path are later. */
  ghost predicate LatestStored(t: Tools, artifacts: seq<Artifact>, path: Path, hash: Digest, i: nat) {
    && i < |artifacts| && IsOf(artifacts[i], path) && t.hash(artifacts[i].raw) == hash
    && (forall j :: i < j < |artifacts| && IsOf(artifacts[j], path) ==> t.hash(artifacts[j].raw) != hash)
    && LaterCount(artifacts, path, i) < 8
  }

  lemma {:induction false} LaterCountStep(artifacts: seq<Artifact>, path: Path, i: nat)
    requires i < |artifacts| - 1
    ensures var n := |artifacts| - 1;
      LaterCount(artifacts, path, i) == LaterCount(artifacts[..n], path, i) + (if IsOf(artifacts[n], path) then 1 else 0)
    decreases |artifacts| - i
  {
    var n := |artifacts| - 1;
    if i < n - 1 {
      LaterCountStep(artifacts, path, i + 1);
      assert artifacts[..n][i + 1] == artifacts[i + 1];
    } else {
      assert LaterCount(artifacts, path, n) == 0;
      assert LaterCount(artifacts[..n], path, i) == 0;
    }
  }

  /** The scan lists the artifacts of this path, last to first. */
  lemma {:induction false} ScannedFromTheEnd(artifacts: seq<Artifact>, path: Path, i: nat)
    requires i < |artifacts| && IsOf(artifacts[i], path)
    ensures var scan, k := ArtifactsFor(artifacts, path), LaterCount(artifacts, path, i);
      k < |scan| && scan[k] == artifacts[i]
  {
    var n := |artifacts| - 1;
    assert LaterCount(artifacts, path, n) == 0;
    hide LaterCount;
    ScanStep(artifacts, path);
    hide ArtifactsFor;
    if i < n {
      ScannedFromTheEnd(artifacts[..n], path, i);
      LaterCountStep(artifacts, path, i);
      var front := if IsOf(artifacts[n], path) then [artifacts[n]] else [];
      hide IsOf;
      InSecond(front, ArtifactsFor(artifacts[..n], path), LaterCount(artifacts[..n], path, i));
    }
  }

  lemma InSecond<T>(front: seq<T>, back: seq<T>, k: nat)
    requires k < |back|
    ensures (front + back)[|front| + k] == back[k]
  {
  }

  lemma ScanStep(artifacts: seq<Artifact>, path: Path)
    requires artifacts != []
    ensures var n := |artifacts| - 1;
      ArtifactsFor(artifacts, path) == (if IsOf(artifacts[n], path) then [artifacts[n]] else []) + ArtifactsFor(artifacts[..n], path)
  {
  }

  /** Every scanned artifact stands somewhere in the table. */
  lemma {:induction false} ScanPosition(artifacts: seq<Artifact>, path: Path, k: nat) returns (i: nat)
    requires k < |ArtifactsFor(artifacts, path)|
    ensures i < |artifacts| && artifacts[i] == ArtifactsFor(artifacts, path)[k] && IsOf(artifacts[i], path)
    ensures LaterCount(artifacts, path, i) == k
  {
    var n := |artifacts| - 1;
    var last := if artifacts[n].filePath == Some(path) then 1 else 0;
    if k < last {
      i := n;
    } else {
      i := ScanPosition(artifacts[..n], path, k - last);
      LaterCountStep(artifacts, path, i);
      hide LaterCount;
    }
  }

  /** The scan finds the first artifact with the hash within its limit. */
  lemma {:induction false} FirstWithHashExactly(t: Tools, artifacts: seq<Artifact>, hash: Digest, limit: nat) returns (k: nat)
    ensures var r := FirstWithHash(t, artifacts, hash, limit);
      if r.Some? then k < |artifacts| && k < limit && artifacts[k] == r.value && t.hash(artifacts[k].raw) == hash
      else k == if limit <= |artifacts| then limit else |artifacts|
    ensures forall j :: 0 <= j < k && j < |artifacts| ==> t.hash(artifacts[j].raw) != hash
  {
    k := 0;
    if artifacts != [] && limit != 0 && t.hash(artifacts[0].raw) != hash {
      var rest := artifacts[1..];
      var later := FirstWithHashExactly(t, rest, hash, limit - 1);
      k := later + 1;
      forall j | 0 <= j < k && j < |artifacts| ensures t.hash(artifacts[j].raw) != hash {
        assert j > 0 ==> artifacts[j] == rest[j - 1];
      }
    }
  }

  lemma {:induction false} LaterIsEarlierInScan(artifacts: seq<Artifact>, path: Path, i: nat, j: nat)
    requires i < j < |artifacts| && IsOf(artifacts[j], path)
    ensures LaterCount(artifacts, path, j) < LaterCount(artifacts, path, i)
    decreases j - i
  {
    if i + 1 < j {
      LaterIsEarlierInScan(artifacts, path, i + 1, j);
    }
  }

  /** A stored version is found exactly when there is a latest stored artifact, and it is that one's raw. */
  lemma StoredVersionExactly(t: Tools, artifacts: seq<Artifact>, path: Path, hash: Digest)
    requires DistinctIds(artifacts)
    ensures var r := StoredVersion(t, artifacts, path, hash);
      && (r.None? <==> forall i :: !LatestStored(t, artifacts, path, hash, i))
      && (forall i: nat :: LatestStored(t, artifacts, path, hash, i) ==> r == Some(artifacts[i].raw))
  {
    hide FirstWithHash;
    hide ArtifactsFor;
    hide LaterCount;
    var scan := ArtifactsFor(artifacts, path);
    var k := FirstWithHashExactly(t, scan, hash, 8);
    var found := FirstWithHash(t, scan, hash, 8);
    forall i: nat | LatestStored(t, artifacts, path, hash, i)
      ensures found.Some? && StoredVersion(t, artifacts, path, hash) == Some(artifacts[i].raw)
    {
      FoundIsLatest(t, artifacts, path, hash, i);
      FetchedByItsId(artifacts, i);
    }
    if found.Some? {
      var i := ScanPosition(artifacts, path, k);
      forall j | i < j < |artifacts| && IsOf(artifacts[j], path) ensures t.hash(artifacts[j].raw) != hash {
        LaterIsEarlierInScan(artifacts, path, i, j);
        ScannedFromTheEnd(artifacts, path, j);
      }
      assert LatestStored(t, artifacts, path, hash, i);
    }
  }

  lemma FoundIsLatest(t: Tools, artifacts: seq<Artifact>, path: Path, hash: Digest, i: nat)
    requires LatestStored(t, artifacts, path, hash, i)
    ensures FirstWithHash(t, ArtifactsFor(artifacts, path), hash, 8) == Some(artifacts[i])
  {
    hide FirstWithHash;
    hide ArtifactsFor;
    hide LaterCount;
    var scan := ArtifactsFor(artifacts, path);
    var k := FirstWithHashExactly(t, scan, hash, 8);
    ScannedFromTheEnd(artifacts, path, i);
    assert FirstWithHash(t, scan, hash, 8).Some?;
    var i' := ScanPosition(artifacts, path, k);
    assert k <= LaterCount(artifacts, path, i);
    if i' < i {
      LaterIsEarlierInScan(artifacts, path, i', i);
    }
    assert i' == i;
  }

  lemma FetchedByItsId(artifacts: seq<Artifact>, i: nat)
    requires DistinctIds(artifacts) && i < |artifacts|
    ensures GetArtifact(artifacts, artifacts[i].id) == Some(artifacts[i])
  {
    assert artifacts[i] in artifacts;
    var found := GetArtifact(artifacts, artifacts[i].id);
    var j :| 0 <= j < |artifacts| && artifacts[j] == found.value;
  }

  /** What one served row answers: the stored artifact of that version, else its own copy, unless empty. */
  ghost predicate Answers(t: Tools, served: map<Row, Served>, artifacts: seq<Artifact>, row: Row, ref: Ref, content: Content) {
    && ref.FileRef? && row in served && t.fileId(row.path) == ref.fileId
    && if exists i :: LatestStored(t, artifacts, row.path, ref.hash, i)
       then exists i: nat :: LatestStored(t, artifacts, row.path, ref.hash, i) && content == artifacts[i].raw
       else served[row].hash == ref.hash && content == served[row].content && content != ""
  }

  /** A reference resolves to what the first row that answers says, and to nothing when none does. */
  lemma {:induction false} ResolvesExactly(
    t: Tools, served: map<Row, Served>, artifacts: seq<Artifact>, rows: seq<Row>, ref: Ref, content: Content)
    requires DistinctIds(artifacts) && forall row :: row in rows ==> row in served
    ensures Resolve(t, served, artifacts, rows, ref) == Some(content) <==>
      exists n :: 0 <= n < |rows| && Answers(t, served, artifacts, rows[n], ref, content)
                  && forall m, other :: 0 <= m < n ==> !Answers(t, served, artifacts, rows[m], ref, other)
  {
    if ref.FileRef? && rows != [] {
      assert rows[0] in rows;
      ResolvesExactly(t, served, artifacts, rows[1..], ref, content);
      FirstRowAnswers(t, served, artifacts, rows, ref, content);
      RowAnswersExactly(t, served, artifacts, rows, ref);
      hide Answers;
      hide Resolve;
    } else {
      NothingAnswers(t, served, artifacts, rows, ref);
      hide Answers;
    }
  }

  lemma NothingAnswers(t: Tools, served: map<Row, Served>, artifacts: seq<Artifact>, rows: seq<Row>, ref: Ref)
    requires ref.OtherRef? || rows == []
    ensures forall n, content :: 0 <= n < |rows| ==> !Answers(t, served, artifacts, rows[n], ref, content)
  {
  }

  /** One row of the scan: its answer when it has one, else the rest of the scan. */
  lemma RowAnswersExactly(t: Tools, served: map<Row, Served>, artifacts: seq<Artifact>, rows: seq<Row>, ref: Ref)
    requires DistinctIds(artifacts) && (forall row :: row in rows ==> row in served) && ref.FileRef? && rows != []
    ensures forall content :: Answers(t, served, artifacts, rows[0], ref, content) ==>
      Resolve(t, served, artifacts, rows, ref) == Some(content)
    ensures (forall content :: !Answers(t, served, artifacts, rows[0], ref, content)) ==>
      Resolve(t, served, artifacts, rows, ref) == Resolve(t, served, artifacts, rows[1..], ref)
  {
    var row := rows[0];
    assert row in rows;
    StoredVersionExactly(t, artifacts, row.path, ref.hash);
    hide StoredVersion;
    hide LatestStored;
    if i: nat :| LatestStored(t, artifacts, row.path, ref.hash, i) {
      assert t.fileId(row.path) == ref.fileId ==> Answers(t, served, artifacts, row, ref, artifacts[i].raw);
    } else {
      assert t.fileId(row.path) == ref.fileId && served[row].hash == ref.hash && served[row].content != "" ==>
        Answers(t, served, artifacts, row, ref, served[row].content);
    }
  }

  lemma FirstRowAnswers(
    t: Tools, served: map<Row, Served>, artifacts: seq<Artifact>, rows: seq<Row>, ref: Ref, content: Content)
    requires rows != [] && ref.FileRef?
    ensures
      (exists n :: 0 <= n < |rows| && Answers(t, served, artifacts, rows[n], ref, content)
                   && forall m, other :: 0 <= m < n ==> !Answers(t, served, artifacts, rows[m], ref, other))
      <==>
      (Answers(t, served, artifacts, rows[0], ref, content)
       || ((forall other :: !Answers(t, served, artifacts, rows[0], ref, other))
           && exists n :: 0 <= n < |rows| - 1 && Answers(t, served, artifacts, rows[1..][n], ref, content)
                          && forall m, other :: 0 <= m < n ==> !Answers(t, served, artifacts, rows[1..][m], ref, other)))
  {
    hide Answers;
    var rest := rows[1..];
    assert forall n :: 0 <= n < |rest| ==> rest[n] == rows[n + 1];
    if n :| 0 <= n < |rows| && Answers(t, served, artifacts, rows[n], ref, content)
            && forall m, other :: 0 <= m < n ==> !Answers(t, served, artifacts, rows[m], ref, other) {
      if n > 0 {
        assert Answers(t, served, artifacts, rest[n - 1], ref, content);
        assert forall other :: !Answers(t, served, artifacts, rows[0], ref, other);
      }
    }
    if (forall other :: !Answers(t, served, artifacts, rows[0], ref, other)) {
      if n :| 0 <= n < |rest| && Answers(t, served, artifacts, rest[n], ref, content)
              && forall m, other :: 0 <= m < n ==> !Answers(t, served, artifacts, rest[m], ref, other) {
        assert Answers(t, served, artifacts, rows[n + 1], ref, content);
        forall m, other | 0 <= m < n + 1 ensures !Answers(t, served, artifacts, rows[m], ref, other) {
          assert m > 0 ==> rows[m] == rest[m - 1];
        }
      }
    }
  }

  // ----- Replaying what was served -----

  datatype Serve = Serve(row: Row, content: Content)

  function ServedBy(t: Tools, serves: seq<Serve>): map<Row, Served> {
    if serves == [] then map[]
    else
      var last := serves[|serves| - 1];
      ServedAfter(t, ServedBy(t, serves[..|serves| - 1]), last.row, last.content)
  }

  /** The artifact table after every insert attempted. */
  function StoredBy(inserts: seq<Artifact>): seq<Artifact> {
    if inserts == [] then [] else Inserted(StoredBy(inserts[..|inserts| - 1]), inserts[|inserts| - 1])
  }

  /** In every state reached by serves, colliding hashes or not, rows carry the hash of their content. */
  lemma {:induction false} ServedRowsAreHonest(t: Tools, serves: seq<Serve>)
    ensures HonestRows(t, ServedBy(t, serves))
  {
    if serves != [] {
      var init, last := serves[..|serves| - 1], serves[|serves| - 1];
      ServedRowsAreHonest(t, init);
      ServingKeepsRowsHonest(t, ServedBy(t, init), last.row, last.content);
    }
  }

  lemma {:induction false} StoredIdsAreDistinct(inserts: seq<Artifact>)
    ensures DistinctIds(StoredBy(inserts))
  {
    if inserts != [] {
      StoredIdsAreDistinct(inserts[..|inserts| - 1]);
      InsertingKeepsIdsDistinct(StoredBy(inserts[..|inserts| - 1]), inserts[|inserts| - 1]);
    }
  }

  /**
   * After any serves and inserts, whatever a reference resolves to has the hash it names, even when
   * file ids or content hashes collide.
   */
  lemma ResolvedContentHasTheHash(t: Tools, serves: seq<Serve>, inserts: seq<Artifact>, rows: seq<Row>, ref: Ref)
    requires forall row :: row in rows ==> row in ServedBy(t, serves)
    ensures var r := Resolve(t, ServedBy(t, serves), StoredBy(inserts), rows, ref);
            r.Some? ==> ref.FileRef? && t.hash(r.value) == ref.hash
  {
    ServedRowsAreHonest(t, serves);
    StoredIdsAreDistinct(inserts);
    HonestTablesResolveHonestly(t, ServedBy(t, serves), StoredBy(inserts), rows, ref);
  }

  /** What the model holds for a row once it has read every result: full texts replace, diffs apply. */
  function Replayed(t: Tools, serves: seq<Serve>, row: Row): Option<Content> {
    if serves == [] then None
    else
      var init, last := serves[..|serves| - 1], serves[|serves| - 1];
      var held := Replayed(t, init, row);
      if last.row != row then held
      else
        var r := ServeResultFor(t, Lookup(ServedBy(t, init), row), row.path, last.content);
        match r.mode
        case Full => Some(r.text)
        case Unchanged => held
        case Diff => if held.Some? then Some(t.apply(r.text, held.value)) else None
  }

  function Latest(serves: seq<Serve>, row: Row): Option<Content> {
    if serves == [] then None
    else if serves[|serves| - 1].row == row then Some(serves[|serves| - 1].content)
    else Latest(serves[..|serves| - 1], row)
  }

  /** A row exists for every file served, under the hash of what was served last. */
  lemma {:induction false} RowsCarryTheLatestHash(t: Tools, serves: seq<Serve>, row: Row)
    ensures row in ServedBy(t, serves) <==> Latest(serves, row).Some?
    ensures row in ServedBy(t, serves) && Latest(serves, row).Some? ==>
      ServedBy(t, serves)[row].hash == t.hash(Latest(serves, row).value)
  {
    if serves != [] {
      RowsCarryTheLatestHash(t, serves[..|serves| - 1], row);
    }
  }

  /** What the serve at position `n` returned. */
  function Returned(t: Tools, serves: seq<Serve>, n: nat): ServeResult
    requires n < |serves|
  {
    var s := serves[n];
    ServeResultFor(t, Lookup(ServedBy(t, serves[..n]), s.row), s.row.path, s.content)
  }

  /** The last serve of its row is at `n`. */
  ghost predicate LastServeOf(serves: seq<Serve>, n: nat) {
    n < |serves| && forall m :: n < m < |serves| ==> serves[m].row != serves[n].row
  }

  lemma {:induction false} LastServeIsLatest(serves: seq<Serve>, n: nat)
    requires LastServeOf(serves, n)
    ensures Latest(serves, serves[n].row) == Some(serves[n].content)
  {
    if n < |serves| - 1 {
      assert serves[..|serves| - 1][n] == serves[n];
      LastServeIsLatest(serves[..|serves| - 1], n);
    }
  }

  /**
   * What each serve returns, whatever was served before: in every mode the reference names the file
   * and the content served. A first serve is in full, one whose content has the hash served last is
   * unchanged, and any other is a diff against the copy the registry kept, which has that hash.
   */
  lemma EveryServeNamesItsContent(t: Tools, serves: seq<Serve>, n: nat)
    requires n < |serves|
    ensures var (s, r) := (serves[n], Returned(t, serves, n));
      var prior := Latest(serves[..n], s.row);
      && r.ref == FileRef(t.fileId(s.row.path), t.hash(s.content))
      && (prior.None? ==> r.mode == Full && r.text == s.content)
      && (prior.Some? && t.hash(prior.value) == t.hash(s.content) ==>
           r.mode == Unchanged
           && r.text == "[dcp:file " + t.fileId(s.row.path) + "@" + t.hash(s.content)
                        + " unchanged since last serve; zoom or re-read is unnecessary]")
      && (prior.Some? && t.hash(prior.value) != t.hash(s.content) ==>
           r.mode == Diff && exists kept :: t.hash(kept) == t.hash(prior.value) && r.text == t.patch(kept, s.content))
  {
    RowsCarryTheLatestHash(t, serves[..n], serves[n].row);
    ServedRowsAreHonest(t, serves[..n]);
    hide ServedBy;
    hide Latest;
  }

  /**
   * After any serves and inserts, the reference the last serve of a file returned resolves, in
   * whatever mode it was served, unless the content has the hash of the empty text.
   */
  lemma LatestReferenceResolves(t: Tools, serves: seq<Serve>, inserts: seq<Artifact>, rows: seq<Row>, n: nat)
    requires forall r :: r in rows <==> r in ServedBy(t, serves)
    requires LastServeOf(serves, n) && t.hash(serves[n].content) != t.hash("")
    ensures Resolve(t, ServedBy(t, serves), StoredBy(inserts), rows, Returned(t, serves, n).ref).Some?
  {
    hide Resolve;
    LastServeIsLatest(serves, n);
    EveryServeNamesItsContent(t, serves, n);
    RowsCarryTheLatestHash(t, serves, serves[n].row);
    ServedRowsAreHonest(t, serves);
    RowsResolve(t, ServedBy(t, serves), StoredBy(inserts), rows, serves[n].row);
  }

  /** The hash does not collide on the contents served. */
  ghost predicate ContentsDistinguished(t: Tools, serves: seq<Serve>) {
    forall a, b :: a in serves && b in serves && t.hash(a.content) == t.hash(b.content) ==> a.content == b.content
  }

  lemma {:induction false} LatestWasServed(serves: seq<Serve>, row: Row)
    requires Latest(serves, row).Some?
    ensures Serve(row, Latest(serves, row).value) in serves
  {
    if serves[|serves| - 1].row != row {
      LatestWasServed(serves[..|serves| - 1], row);
    }
  }

  lemma {:induction false} RegistryHoldsTheLatest(t: Tools, serves: seq<Serve>, row: Row)
    requires ContentsDistinguished(t, serves)
    ensures HonestRows(t, ServedBy(t, serves))
    ensures Lookup(ServedBy(t, serves), row)
         == if Latest(serves, row).Some? then Some(Served(t.hash(Latest(serves, row).value), Latest(serves, row).value)) else None
  {
    if serves != [] {
      var init, last := serves[..|serves| - 1], serves[|serves| - 1];
      RegistryHoldsTheLatest(t, init, row);
      if last.row == row && Latest(init, row).Some? {
        LatestWasServed(init, row);
        assert Serve(row, Latest(init, row).value) in serves && last in serves;
      }
    }
  }

  /** After every serve, replaying the results for a file rebuilds exactly its latest content. */
  lemma {:induction false} ReplayRebuildsTheLatest(t: Tools, serves: seq<Serve>, row: Row)
    requires ApplyLaw(t) && ContentsDistinguished(t, serves)
    ensures Replayed(t, serves, row) == Latest(serves, row)
  {
    if serves != [] {
      var init, last := serves[..|serves| - 1], serves[|serves| - 1];
      assert serves == init + [last];
      ReplayRebuildsTheLatest(t, init, row);
      RegistryHoldsTheLatest(t, init, row);
      if last.row == row && Latest(init, row).Some? {
        LatestWasServed(init, row);
        assert Serve(row, Latest(init, row).value) in serves && last in serves;
      }
    }
  }

  /** No stored artifact collides with a served content either. */
  ghost predicate StoredDistinguished(t: Tools, serves: seq<Serve>, inserts: seq<Artifact>) {
    forall a, s :: a in StoredBy(inserts) && s in serves && t.hash(a.raw) == t.hash(s.content) ==> a.raw == s.content
  }

  /**
   * End to end: hashes not colliding, the reference the last serve of a non-empty file returned
   * resolves to exactly the content served.
   */
  lemma LatestReferenceResolvesToTheContent(
    t: Tools, serves: seq<Serve>, inserts: seq<Artifact>, rows: seq<Row>, n: nat)
    requires ContentsDistinguished(t, serves) && StoredDistinguished(t, serves, inserts)
    requires forall r :: r in rows <==> r in ServedBy(t, serves)
    requires LastServeOf(serves, n) && serves[n].content != ""
    ensures Resolve(t, ServedBy(t, serves), StoredBy(inserts), rows, Returned(t, serves, n).ref) == Some(serves[n].content)
  {
    hide Resolve;
    var row, content := serves[n].row, serves[n].content;
    LastServeIsLatest(serves, n);
    EveryServeNamesItsContent(t, serves, n);
    RegistryHoldsTheLatest(t, serves, row);
    RowsResolve(t, ServedBy(t, serves), StoredBy(inserts), rows, row);
    StoredIdsAreDistinct(inserts);
    ResolvesToKnownContent(t, serves, inserts, rows, Returned(t, serves, n).ref, content);
  }

  lemma {:induction false} ResolvesToKnownContent(
    t: Tools, serves: seq<Serve>, inserts: seq<Artifact>, rows: seq<Row>, ref: Ref, content: Content)
    requires ContentsDistinguished(t, serves) && StoredDistinguished(t, serves, inserts) && DistinctIds(StoredBy(inserts))
    requires forall r :: r in rows ==> r in ServedBy(t, serves)
    requires ref.FileRef? && ref.hash == t.hash(content) && exists s :: s in serves && s.content == content
    ensures var r := Resolve(t, ServedBy(t, serves), StoredBy(inserts), rows, ref);
            r.Some? ==> r.value == content
  {
    hide StoredVersion;
    if rows != [] {
      var row := rows[0];
      assert row in rows;
      ResolvesToKnownContent(t, serves, inserts, rows[1..], ref, content);
      StoredVersionHasTheHash(t, StoredBy(inserts), row.path, ref.hash);
      var s :| s in serves && s.content == content;
      RegistryHoldsTheLatest(t, serves, row);
      LatestWasServed(serves, row);
      assert Serve(row, ServedBy(t, serves)[row].content) in serves;
    }
  }
}
