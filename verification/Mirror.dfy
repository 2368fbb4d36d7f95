/**
 * The skeleton mirror: an index of content hashes beside a directory of entry files, two writers
 * (`refreshMirror` in packages/sidecar/src/mirror.ts, `prepareSkeletonEntry` in
 * packages/sidecar/src/prepare.ts) and the hook's reader (`freshMirrorEntry` in
 * packages/hooks/src/handlers.ts).
 */
module Mirror {
  import opened Common
  import opened Graduation
  import opened Strings

  type Rel = string
  type Bytes = string
  type Digest = string

  /**
   * What the mirror calls out to: the content hash, the directive fingerprint, which paths have a
   * skeleton builder, and the two builders (None when there is nothing to serve).
   */
  datatype Tools = Tools(
    hash: Bytes -> Digest,
    fingerprint: seq<string> -> Digest,
    mirrorable: Rel -> bool,
    build: (Rel, Bytes, seq<string>) -> Option<string>,
    prepare: (Rel, Bytes) -> Option<string>
  )

  datatype IndexEntry = IndexEntry(hash: Digest, enrichment: Option<Digest>)

  type Index = map<Rel, IndexEntry>

  /** Source files, the index file (None when missing or unreadable) and the entry files. */
  datatype Repo = Repo(files: map<Rel, Bytes>, index: Option<Index>, entries: map<string, string>)

  function IndexOf(repo: Repo): Index {
    if repo.index.Some? then repo.index.value else map[]
  }

  // ----- Entry paths -----

  function Lower(c: char): char {
    if 'A' <= c <= 'Z' then c - 'A' + 'a' else c
  }

  function LowerAll(s: string): string {
    seq(|s|, i requires 0 <= i < |s| => Lower(s[i]))
  }

  /** The extension, as `path.extname` reads it, is `ext`: the name before it is not empty. */
  predicate HasExtension(rel: Rel, ext: string) {
    |rel| > |ext| && LowerAll(rel[|rel| - |ext|..]) == ext && rel[|rel| - |ext| - 1] != '/'
  }

  predicate ReadAsBinary(rel: Rel) {
    HasExtension(rel, ".pdf") || HasExtension(rel, ".docx")
  }

  function EntryPath(rel: Rel): string {
    if ReadAsBinary(rel) then rel + ".txt" else rel
  }

  /** `letters` in lower case, where all of them are letters. */
  ghost predicate InAnyCase(letters: string, lower: string) {
    |letters| == |lower| && forall i :: 0 <= i < |letters| ==>
      'a' <= lower[i] <= 'z' && (letters[i] == lower[i] || letters[i] as int == lower[i] as int - 32)
  }

  /** A name, not empty nor the end of a directory, before a dot and the extension in any case. */
  ghost predicate Extends(rel: Rel, ext: string) {
    exists name, letters :: rel == name + "." + letters && InAnyCase(letters, ext)
                            && name != "" && name[|name| - 1] != '/'
  }

  lemma LowersTo(letters: string, lower: string)
    requires |letters| == |lower| && forall i :: 0 <= i < |lower| ==> 'a' <= lower[i] <= 'z'
    ensures LowerAll("." + letters) == "." + lower <==> InAnyCase(letters, lower)
  {
    LowerAllTail(letters);
    var lowered := LowerAll("." + letters);
    if lowered == "." + lower {
      forall i | 0 <= i < |letters| ensures letters[i] == lower[i] || letters[i] as int == lower[i] as int - 32 {
        assert lowered[i + 1] == ("." + lower)[i + 1] == lower[i];
      }
    }
    if InAnyCase(letters, lower) {
      forall i | 0 <= i < |lowered| ensures lowered[i] == ("." + lower)[i] {
        assert i > 0 ==> lowered[i] == Lower(letters[i - 1]);
      }
    }
  }

  lemma LowerAllTail(letters: string)
    ensures var lowered := LowerAll("." + letters);
      |lowered| == |letters| + 1 && lowered[0] == '.' && forall i :: 0 <= i < |letters| ==> lowered[i + 1] == Lower(letters[i])
  {
    var s := "." + letters;
    assert forall i :: 0 <= i < |letters| ==> s[i + 1] == letters[i];
  }

  lemma ExtensionExactly(rel: Rel, ext: string)
    requires forall i :: 0 <= i < |ext| ==> 'a' <= ext[i] <= 'z'
    ensures HasExtension(rel, "." + ext) <==> Extends(rel, ext)
  {
    hide HasExtension;
    hide InAnyCase;
    if HasExtension(rel, "." + ext) {
      var name, letters := SplitExtension(rel, ext);
    }
    if name, letters :| rel == name + "." + letters && InAnyCase(letters, ext) && name != "" && name[|name| - 1] != '/' {
      JoinedExtension(name, letters, ext);
    }
  }

  lemma SplitExtension(rel: Rel, ext: string) returns (name: string, letters: string)
    requires forall i :: 0 <= i < |ext| ==> 'a' <= ext[i] <= 'z'
    requires HasExtension(rel, "." + ext)
    ensures rel == name + "." + letters && InAnyCase(letters, ext) && name != "" && name[|name| - 1] != '/'
  {
    var cut := |rel| - (|ext| + 1);
    assert |"." + ext| == |ext| + 1;
    name, letters := rel[..cut], rel[cut + 1..];
    LowerDot(rel[cut..], ext);
    assert rel[cut] == '.';
    assert rel[cut..] == "." + letters;
    assert rel == name + "." + letters;
    LowersTo(letters, ext);
    hide LowerAll;
    hide InAnyCase;
  }

  lemma JoinedExtension(name: string, letters: string, ext: string)
    requires InAnyCase(letters, ext) && name != "" && name[|name| - 1] != '/'
    ensures HasExtension(name + "." + letters, "." + ext)
  {
    LowersTo(letters, ext);
    var rel := name + "." + letters;
    assert |"." + ext| == |ext| + 1 && |letters| == |ext|;
    hide LowerAll;
    hide InAnyCase;
    assert |rel| - |"." + ext| == |name|;
    assert rel[|name|..] == "." + letters;
    assert rel[|name| - 1] == name[|name| - 1];
  }

  lemma LowerDot(s: string, ext: string)
    requires LowerAll(s) == "." + ext
    ensures |s| == |ext| + 1 && s[0] == '.'
  {
    assert |LowerAll(s)| == |"." + ext| == |ext| + 1;
    assert LowerAll(s)[0] == '.';
  }

  /** PDF and DOCX files, in any letter case, are the ones whose entries are named apart. */
  lemma EntryPathExactly(rel: Rel)
    ensures EntryPath(rel) == if Extends(rel, "pdf") || Extends(rel, "docx") then rel + ".txt" else rel
  {
    ExtensionExactly(rel, "pdf");
    ExtensionExactly(rel, "docx");
    assert "." + "pdf" == ".pdf" && "." + "docx" == ".docx";
  }

  /** Two sources share an entry file exactly when one is a binary document and the other its .txt namesake. */
  lemma EntryPathsClashExactly(a: Rel, b: Rel)
    ensures a != b && EntryPath(a) == EntryPath(b) <==>
      (ReadAsBinary(a) && b == a + ".txt") || (ReadAsBinary(b) && a == b + ".txt")
  {
    TextIsNotBinary(a);
    TextIsNotBinary(b);
    if ReadAsBinary(a) && ReadAsBinary(b) && EntryPath(a) == EntryPath(b) {
      assert (a + ".txt")[..|a|] == a && (b + ".txt")[..|b|] == b;
    }
  }

  lemma TextIsNotBinary(rel: Rel)
    ensures !ReadAsBinary(rel + ".txt")
  {
    var s := rel + ".txt";
    assert |s| >= 4 && LowerAll(s[|s| - 4..])[3] == 't';
    assert |s| >= 5 ==> LowerAll(s[|s| - 5..])[4] == 't';
  }

  // ----- Enrichment directives -----

  predicate Matches(rel: Rel, path: string) {
    rel == path || EndsWith(rel, "/" + path)
  }

  /** The first directive matching this path. */
  function EnrichmentFor(rel: Rel, directives: seq<Directive>): (r: Option<Directive>)
    ensures r.None? <==> forall e :: e in directives ==> !Matches(rel, e.path)
    ensures r.Some? ==> r.value in directives && Matches(rel, r.value.path)
  {
    if directives == [] then None
    else if Matches(rel, directives[0].path) then Some(directives[0])
    else EnrichmentFor(rel, directives[1..])
  }

  function SymbolsFor(rel: Rel, directives: seq<Directive>): seq<string> {
    var e := EnrichmentFor(rel, directives);
    if e.Some? then e.value.symbols else []
  }

  function FingerprintFor(t: Tools, rel: Rel, directives: seq<Directive>): Option<Digest> {
    var e := EnrichmentFor(rel, directives);
    if e.Some? then Some(t.fingerprint(e.value.symbols)) else None
  }

  // ----- Refresh, one path at a time -----

  /** The refresh's working variables; entry files are written as it goes, the index at the end. */
  datatype Work = Work(index: Index, entries: map<string, string>, dirty: bool, written: seq<Rel>)

  /** Forgets a path; an entry file that cannot be removed (`stuck`) stays behind. */
  function DropEntry(w: Work, rel: Rel, stuck: set<string>): Work {
    if rel !in w.index then w
    else w.(index := w.index - {rel}, dirty := true,
            entries := if EntryPath(rel) in stuck then w.entries else w.entries - {EntryPath(rel)})
  }

  predicate UpToDate(t: Tools, files: map<Rel, Bytes>, w: Work, rel: Rel, directives: seq<Directive>) {
    && rel in files && rel in w.index
    && w.index[rel].hash == t.hash(files[rel])
    && w.index[rel].enrichment == FingerprintFor(t, rel, directives)
    && EntryPath(rel) in w.entries
  }

  function RefreshOne(
    t: Tools, files: map<Rel, Bytes>, w: Work, relRaw: Rel, directives: seq<Directive>, stuck: set<string>): Work
  {
    var rel := Slashed(relRaw);
    if !t.mirrorable(rel) then w
    else if rel !in files then DropEntry(w, rel, stuck)
    else if UpToDate(t, files, w, rel, directives) then w
    else
      var built := t.build(rel, files[rel], SymbolsFor(rel, directives));
      if built.None? then DropEntry(w, rel, stuck)
      else Work(
        w.index[rel := IndexEntry(t.hash(files[rel]), FingerprintFor(t, rel, directives))],
        w.entries[EntryPath(rel) := built.value],
        true,
        w.written + [rel])
  }

  function RefreshAll(
    t: Tools, files: map<Rel, Bytes>, w: Work, rels: seq<Rel>, directives: seq<Directive>, stuck: set<string>): Work
  {
    if rels == [] then w
    else RefreshOne(t, files, RefreshAll(t, files, w, rels[..|rels| - 1], directives, stuck), rels[|rels| - 1], directives, stuck)
  }

  function StartRefresh(repo: Repo): Work {
    Work(IndexOf(repo), repo.entries, false, [])
  }

  function FinishRefresh(repo: Repo, w: Work): Repo {
    repo.(index := if w.dirty then Some(w.index) else repo.index, entries := w.entries)
  }

  function Refresh(t: Tools, repo: Repo, rels: seq<Rel>, directives: seq<Directive>, stuck: set<string>): Repo {
    FinishRefresh(repo, RefreshAll(t, repo.files, StartRefresh(repo), rels, directives, stuck))
  }

  // ----- On-demand preparation and the hook -----

  predicate FreshFor(t: Tools, repo: Repo, rel: Rel, bytes: Bytes) {
    rel in IndexOf(repo) && IndexOf(repo)[rel].hash == t.hash(bytes) && EntryPath(rel) in repo.entries
  }

  function WriteEntry(repo: Repo, rel: Rel, skeleton: string, hash: Digest, enrichment: Option<Digest>): Repo {
    repo.(entries := repo.entries[EntryPath(rel) := skeleton],
          index := Some(IndexOf(repo)[rel := IndexEntry(hash, enrichment)]))
  }

  function Prepare(t: Tools, repo: Repo, relRaw: Rel): Repo {
    var rel := Slashed(relRaw);
    if rel !in repo.files || !t.mirrorable(rel) || FreshFor(t, repo, rel, repo.files[rel]) then repo
    else
      var built := t.prepare(rel, repo.files[rel]);
      if built.None? then repo else WriteEntry(repo, rel, built.value, t.hash(repo.files[rel]), None)
  }

  /** What the hook rewrites a read of `rel` to: the entry's text, or None to pass the raw through. */
  function HookServes(t: Tools, repo: Repo, rel: Rel): Option<string> {
    if rel in repo.files && FreshFor(t, repo, rel, repo.files[rel]) then Some(repo.entries[EntryPath(rel)]) else None
  }

  // ----- The mirror on disk -----

  class MirrorStore {
    var repo: Repo
    const tools: Tools

    constructor (tools: Tools, repo: Repo)
      ensures this.tools == tools && this.repo == repo
    {
      this.tools, this.repo := tools, repo;
    }

    method RefreshMirror(rels: seq<Rel>, directives: seq<Directive>, stuck: set<string>) returns (written: seq<Rel>)
      modifies this
      ensures repo == Refresh(tools, old(repo), rels, directives, stuck)
      ensures written == RefreshAll(tools, old(repo).files, StartRefresh(old(repo)), rels, directives, stuck).written
    {
      var files := repo.files;
      var index := IndexOf(repo);
      var dirty := false;
      written := [];
      for n := 0 to |rels|
        invariant repo.files == files == old(repo).files && repo.index == old(repo).index
        invariant Work(index, repo.entries, dirty, written)
               == RefreshAll(tools, files, StartRefresh(old(repo)), rels[..n], directives, stuck)
      {
        assert rels[..n + 1][..n] == rels[..n];
        var rel := Slashed(rels[n]);
        if !tools.mirrorable(rel) {
          continue;
        }
        var built := None;
        if rel in files {
          var hash := tools.hash(files[rel]);
          var fingerprint := FingerprintFor(tools, rel, directives);
          if rel in index && index[rel].hash == hash && index[rel].enrichment == fingerprint
             && EntryPath(rel) in repo.entries {
            continue;
          }
          built := tools.build(rel, files[rel], SymbolsFor(rel, directives));
          if built.Some? {
            repo := repo.(entries := repo.entries[EntryPath(rel) := built.value]);
            index := index[rel := IndexEntry(hash, fingerprint)];
            dirty := true;
            written := written + [rel];
            continue;
          }
        }
        if rel in index {
          index := index - {rel};
          dirty := true;
          if EntryPath(rel) !in stuck {
            repo := repo.(entries := repo.entries - {EntryPath(rel)});
          }
        }
      }
      assert rels[..|rels|] == rels;
      if dirty {
        repo := repo.(index := Some(index));
      }
    }

    method PrepareSkeletonEntry(relRaw: Rel) returns (entry: Option<string>)
      modifies this
      ensures repo == Prepare(tools, old(repo), relRaw)
      ensures entry.Some? ==> entry == HookServes(tools, repo, Slashed(relRaw))
      ensures var (rel, was) := (Slashed(relRaw), old(repo));
        if rel !in was.files || !tools.mirrorable(rel) then entry == None
        else if FreshFor(tools, was, rel, was.files[rel]) then entry == Some(was.entries[EntryPath(rel)])
        else entry == tools.prepare(rel, was.files[rel])
    {
      var rel := Slashed(relRaw);
      if rel !in repo.files || !tools.mirrorable(rel) {
        return None;
      }
      var hash := tools.hash(repo.files[rel]);
      if rel in IndexOf(repo) && IndexOf(repo)[rel].hash == hash && EntryPath(rel) in repo.entries {
        return Some(repo.entries[EntryPath(rel)]);
      }
      var built := tools.prepare(rel, repo.files[rel]);
      if built.None? {
        return None;
      }
      WriteMirrorEntry(rel, built.value, hash, None);
      return built;
    }

    method WriteMirrorEntry(rel: Rel, skeleton: string, hash: Digest, enrichment: Option<Digest>)
      modifies this
      ensures repo == WriteEntry(old(repo), rel, skeleton, hash, enrichment)
    {
      repo := repo.(entries := repo.entries[EntryPath(rel) := skeleton]);
      repo := repo.(index := Some(IndexOf(repo)[rel := IndexEntry(hash, enrichment)]));
    }
  }
}
