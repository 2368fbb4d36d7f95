/** What the mirror guarantees over every run of edits, deletions, refreshes and preparations. */
module MirrorFreshness {
  import opened Common
  import opened Graduation
  import opened Mirror

  /**
   * `text` is what a builder makes of exactly these bytes: under a directive's fingerprint, with
   * symbols of that fingerprint; under none, with no symbols or on demand.
   */
  ghost predicate IsBuildOf(t: Tools, rel: Rel, bytes: Bytes, enrichment: Option<Digest>, text: string) {
    if enrichment.Some? then exists symbols :: t.fingerprint(symbols) == enrichment.value && t.build(rel, bytes, symbols) == Some(text)
    else t.prepare(rel, bytes) == Some(text) || t.build(rel, bytes, []) == Some(text)
  }

  /** The paths and contents a run deals in: no hash collision, no shared entry file. */
  datatype Scope = Scope(rels: set<Rel>, contents: set<Bytes>)

  ghost predicate CollisionFree(t: Tools, s: Scope) {
    && (forall a, b :: a in s.contents && b in s.contents && t.hash(a) == t.hash(b) ==> a == b)
    && (forall a, b :: a in s.rels && b in s.rels && EntryPath(a) == EntryPath(b) ==> a == b)
  }

  ghost predicate RepoInScope(s: Scope, repo: Repo) {
    && (forall rel :: rel in repo.files ==> rel in s.rels && repo.files[rel] in s.contents)
    && (forall rel :: rel in IndexOf(repo) ==> rel in s.rels)
  }

  /** The entry file of an indexed path, if there, was built from content and symbols with the indexed hashes. */
  ghost predicate EntryMatchesIndex(t: Tools, s: Scope, index: Index, entries: map<string, string>, rel: Rel) {
    rel in index && EntryPath(rel) in entries ==>
      exists bytes :: bytes in s.contents && t.hash(bytes) == index[rel].hash
                      && IsBuildOf(t, rel, bytes, index[rel].enrichment, entries[EntryPath(rel)])
  }

  ghost predicate Sound(t: Tools, s: Scope, index: Index, entries: map<string, string>) {
    && (forall rel :: rel in index ==> rel in s.rels)
    && (forall rel :: EntryMatchesIndex(t, s, index, entries, rel))
  }

  lemma RefreshOneKeepsSound(
    t: Tools, s: Scope, files: map<Rel, Bytes>, w: Work, relRaw: Rel, directives: seq<Directive>, stuck: set<string>)
    requires CollisionFree(t, s) && Sound(t, s, w.index, w.entries)
    requires forall rel :: rel in files ==> rel in s.rels && files[rel] in s.contents
    ensures var after := RefreshOne(t, files, w, relRaw, directives, stuck);
            Sound(t, s, after.index, after.entries)
  {
    var after := RefreshOne(t, files, w, relRaw, directives, stuck);
    var rel := Slashed(relRaw);
    forall other ensures EntryMatchesIndex(t, s, after.index, after.entries, other) {
      assert EntryMatchesIndex(t, s, w.index, w.entries, other);
      if other in after.index && other != rel && rel in s.rels {
        assert EntryPath(other) != EntryPath(rel);
      }
      if other == rel && after.written != w.written {
        assert IsBuildOf(t, rel, files[rel], after.index[rel].enrichment, after.entries[EntryPath(rel)]);
      }
    }
  }

  lemma {:induction false} RefreshAllKeepsSound(
    t: Tools, s: Scope, files: map<Rel, Bytes>, w: Work, rels: seq<Rel>, directives: seq<Directive>, stuck: set<string>)
    requires CollisionFree(t, s) && Sound(t, s, w.index, w.entries)
    requires forall rel :: rel in files ==> rel in s.rels && files[rel] in s.contents
    ensures var after := RefreshAll(t, files, w, rels, directives, stuck);
            Sound(t, s, after.index, after.entries) && (!after.dirty && !w.dirty ==> after.index == w.index)
  {
    if rels != [] {
      var init := rels[..|rels| - 1];
      RefreshAllKeepsSound(t, s, files, w, init, directives, stuck);
      RefreshOneKeepsSound(t, s, files, RefreshAll(t, files, w, init, directives, stuck), rels[|rels| - 1], directives, stuck);
    }
  }

  // ----- Runs -----

  datatype Step =
    | Edit(rel: Rel, bytes: Bytes)
    | Delete(rel: Rel)
    | RefreshStep(rels: seq<Rel>, directives: seq<Directive>, stuck: set<string>)
    | PrepareStep(rel: Rel)
    | LoseEntry(path: string)
    | LoseIndex

  function Next(t: Tools, repo: Repo, step: Step): Repo {
    match step
    case Edit(rel, bytes) => repo.(files := repo.files[rel := bytes])
    case Delete(rel) => repo.(files := repo.files - {rel})
    case RefreshStep(rels, directives, stuck) => Refresh(t, repo, rels, directives, stuck)
    case PrepareStep(rel) => Prepare(t, repo, rel)
    case LoseEntry(path) => repo.(entries := repo.entries - {path})
    case LoseIndex => repo.(index := None)
  }

  function Execute(t: Tools, repo: Repo, steps: seq<Step>): Repo {
    if steps == [] then repo else Next(t, Execute(t, repo, steps[..|steps| - 1]), steps[|steps| - 1])
  }

  /**
   * What one more step of a run does: edits and deletions touch that file alone, losses that entry
   * file or the index alone; the writers write as specified and leave the files alone.
   */
  lemma OneMoreStep(t: Tools, repo: Repo, steps: seq<Step>, step: Step)
    ensures Execute(t, repo, []) == repo
    ensures var (before, after) := (Execute(t, repo, steps), Execute(t, repo, steps + [step]));
      match step
      case Edit(rel, bytes) =>
        after.files == before.files[rel := bytes] && after.index == before.index && after.entries == before.entries
      case Delete(rel) =>
        after.files == before.files - {rel} && after.index == before.index && after.entries == before.entries
      case LoseEntry(path) =>
        after.files == before.files && after.index == before.index && after.entries == before.entries - {path}
      case LoseIndex =>
        after.files == before.files && after.index == None && after.entries == before.entries
      case RefreshStep(rels, directives, stuck) =>
        after.files == before.files && after == Refresh(t, before, rels, directives, stuck)
      case PrepareStep(rel) =>
        after.files == before.files && after == Prepare(t, before, rel)
  {
    assert (steps + [step])[..|steps|] == steps;
  }

  ghost predicate StepInScope(s: Scope, step: Step) {
    match step
    case Edit(rel, bytes) => rel in s.rels && bytes in s.contents
    case _ => true
  }

  ghost predicate SoundRepo(t: Tools, s: Scope, repo: Repo) {
    RepoInScope(s, repo) && Sound(t, s, IndexOf(repo), repo.entries)
  }

  lemma StepKeepsSound(t: Tools, s: Scope, repo: Repo, step: Step)
    requires CollisionFree(t, s) && SoundRepo(t, s, repo) && StepInScope(s, step)
    ensures SoundRepo(t, s, Next(t, repo, step))
  {
    var after := Next(t, repo, step);
    match step
    case RefreshStep(rels, directives, stuck) =>
      RefreshAllKeepsSound(t, s, repo.files, StartRefresh(repo), rels, directives, stuck);
    case PrepareStep(relRaw) =>
      var rel := Slashed(relRaw);
      forall other ensures EntryMatchesIndex(t, s, IndexOf(after), after.entries, other) {
        assert EntryMatchesIndex(t, s, IndexOf(repo), repo.entries, other);
        if other in IndexOf(repo) && other != rel && rel in s.rels {
          assert EntryPath(other) != EntryPath(rel);
        }
        if other == rel && after != repo {
          assert IsBuildOf(t, rel, repo.files[rel], None, after.entries[EntryPath(rel)]);
        }
      }
    case Edit(_, _) => SameSound(t, s, IndexOf(repo), repo.entries, IndexOf(after), after.entries);
    case Delete(_) => SameSound(t, s, IndexOf(repo), repo.entries, IndexOf(after), after.entries);
    case LoseEntry(_) => SameSound(t, s, IndexOf(repo), repo.entries, IndexOf(after), after.entries);
    case LoseIndex => SameSound(t, s, IndexOf(repo), repo.entries, IndexOf(after), after.entries);
  }

  /** Forgetting index rows or entry files is always sound. */
  lemma SameSound(t: Tools, s: Scope, index: Index, entries: map<string, string>, index': Index, entries': map<string, string>)
    requires Sound(t, s, index, entries)
    requires forall rel :: rel in index' ==> rel in index && index'[rel] == index[rel]
    requires forall p :: p in entries' ==> p in entries && entries'[p] == entries[p]
    ensures Sound(t, s, index', entries')
  {
    forall rel ensures EntryMatchesIndex(t, s, index', entries', rel) {
      assert EntryMatchesIndex(t, s, index, entries, rel);
    }
  }

  lemma {:induction false} RunKeepsSound(t: Tools, s: Scope, repo: Repo, steps: seq<Step>)
    requires CollisionFree(t, s) && SoundRepo(t, s, repo)
    requires forall step :: step in steps ==> StepInScope(s, step)
    ensures SoundRepo(t, s, Execute(t, repo, steps))
  {
    if steps != [] {
      RunKeepsSound(t, s, repo, steps[..|steps| - 1]);
      StepKeepsSound(t, s, Execute(t, repo, steps[..|steps| - 1]), steps[|steps| - 1]);
    }
  }

  /**
   * In every state reachable from a repository without a mirror, whatever the hook serves for a
   * file was built from the file's current bytes, with symbols of the fingerprint it is indexed under.
   */
  lemma HookServesOnlyCurrentBuilds(t: Tools, s: Scope, repo: Repo, steps: seq<Step>, rel: Rel)
    requires CollisionFree(t, s)
    requires RepoInScope(s, repo) && repo.index.None? && repo.entries == map[]
    requires forall step :: step in steps ==> StepInScope(s, step)
    ensures var end := Execute(t, repo, steps);
            HookServes(t, end, rel).Some? ==>
              rel in end.files && rel in IndexOf(end)
              && IsBuildOf(t, rel, end.files[rel], IndexOf(end)[rel].enrichment, HookServes(t, end, rel).value)
  {
    forall r ensures EntryMatchesIndex(t, s, IndexOf(repo), repo.entries, r) {
    }
    RunKeepsSound(t, s, repo, steps);
    var end := Execute(t, repo, steps);
    if HookServes(t, end, rel).Some? {
      assert EntryMatchesIndex(t, s, IndexOf(end), end.entries, rel);
    }
  }

  /** Why entry paths must be distinct: beside `x.pdf.txt`, reading `x.pdf` is served the other file's skeleton. */
  lemma SharedEntryServesTheOtherFile(t: Tools, repo: Repo, pdf: Rel, a: string, b: string)
    requires ReadAsBinary(pdf) && Slashed(pdf) == pdf && Slashed(pdf + ".txt") == pdf + ".txt"
    requires t.mirrorable(pdf) && t.mirrorable(pdf + ".txt")
    requires pdf in repo.files && pdf + ".txt" in repo.files && repo.index.None? && repo.entries == map[]
    requires t.build(pdf, repo.files[pdf], []) == Some(a)
    requires t.build(pdf + ".txt", repo.files[pdf + ".txt"], []) == Some(b)
    ensures HookServes(t, Refresh(t, repo, [pdf, pdf + ".txt"], [], {}), pdf) == Some(b)
  {
    TextIsNotBinary(pdf);
    var txt := pdf + ".txt";
    var w0 := StartRefresh(repo);
    assert [pdf, txt][..1] == [pdf] && [pdf][..0] == [];
    var w1 := RefreshOne(t, repo.files, w0, pdf, [], {});
    assert RefreshAll(t, repo.files, w0, [pdf], [], {}) == w1;
    assert RefreshAll(t, repo.files, w0, [pdf, txt], [], {}) == RefreshOne(t, repo.files, w1, txt, [], {});
  }

  // ----- What a refresh writes -----

  /** The directive's path names this file: it is the path, or the end of it after a slash. */
  ghost predicate Applies(rel: Rel, d: Directive) {
    rel == d.path || exists head :: rel == head + "/" + d.path
  }

  /** The symbols of the first directive naming this file, and their fingerprint; none without one. */
  ghost predicate DirectedBy(t: Tools, rel: Rel, directives: seq<Directive>, symbols: seq<string>, enrichment: Option<Digest>) {
    if forall n :: 0 <= n < |directives| ==> !Applies(rel, directives[n]) then symbols == [] && enrichment == None
    else exists n ::
      && 0 <= n < |directives| && Applies(rel, directives[n])
      && (forall m :: 0 <= m < n ==> !Applies(rel, directives[m]))
      && symbols == directives[n].symbols && enrichment == Some(t.fingerprint(symbols))
  }

  lemma MatchesApplies(rel: Rel, d: Directive)
    ensures Matches(rel, d.path) <==> Applies(rel, d)
  {
    EndsAtSlash(rel, d.path);
  }

  lemma {:induction false} FirstDirective(t: Tools, rel: Rel, directives: seq<Directive>)
    ensures DirectedBy(t, rel, directives, SymbolsFor(rel, directives), FingerprintFor(t, rel, directives))
  {
    if directives == [] {
    } else {
      MatchesApplies(rel, directives[0]);
      hide Matches;
      hide Applies;
      if Matches(rel, directives[0].path) {
        assert Applies(rel, directives[0]);
      } else {
        FirstDirective(t, rel, directives[1..]);
        DirectedLater(t, rel, directives, SymbolsFor(rel, directives[1..]), FingerprintFor(t, rel, directives[1..]));
      }
    }
  }

  /** A first directive that does not name the file decides nothing. */
  lemma DirectedLater(t: Tools, rel: Rel, directives: seq<Directive>, symbols: seq<string>, enrichment: Option<Digest>)
    requires directives != [] && !Applies(rel, directives[0])
    requires DirectedBy(t, rel, directives[1..], symbols, enrichment)
    ensures DirectedBy(t, rel, directives, symbols, enrichment)
  {
    hide Applies;
    var rest := directives[1..];
    assert forall n :: 0 <= n < |rest| ==> rest[n] == directives[n + 1];
    if forall n :: 0 <= n < |rest| ==> !Applies(rel, rest[n]) {
      forall n | 0 <= n < |directives| ensures !Applies(rel, directives[n]) {
        assert n > 0 ==> directives[n] == rest[n - 1];
      }
    } else {
      var n :| 0 <= n < |rest| && Applies(rel, rest[n]) && (forall m :: 0 <= m < n ==> !Applies(rel, rest[m]))
               && symbols == rest[n].symbols && enrichment == Some(t.fingerprint(symbols));
      assert Applies(rel, directives[n + 1]);
      forall m | 0 <= m < n + 1 ensures !Applies(rel, directives[m]) {
        assert m > 0 ==> directives[m] == rest[m - 1];
      }
    }
  }

  /** The entry file and the index row of a path are what a refresh writes for it. */
  ghost predicate Built(
    t: Tools, files: map<Rel, Bytes>, index: Index, entries: map<string, string>, rel: Rel, directives: seq<Directive>)
  {
    && rel in files && rel in index && EntryPath(rel) in entries
    && t.build(rel, files[rel], SymbolsFor(rel, directives)) == Some(entries[EntryPath(rel)])
    && index[rel] == IndexEntry(t.hash(files[rel]), FingerprintFor(t, rel, directives))
  }

  lemma RefreshOneBuilds(
    t: Tools, files: map<Rel, Bytes>, w: Work, relRaw: Rel, directives: seq<Directive>, stuck: set<string>, other: Rel)
    requires other in w.written ==> Built(t, files, w.index, w.entries, other, directives)
    requires EntryPath(other) == EntryPath(Slashed(relRaw)) ==> other == Slashed(relRaw)
    ensures var after := RefreshOne(t, files, w, relRaw, directives, stuck);
            other in after.written ==> Built(t, files, after.index, after.entries, other, directives)
  {
  }

  lemma {:induction false} RefreshAllBuilds(
    t: Tools, files: map<Rel, Bytes>, w: Work, rels: seq<Rel>, directives: seq<Directive>, stuck: set<string>, rel: Rel)
    requires w.written == []
    requires forall r :: r in rels && EntryPath(Slashed(r)) == EntryPath(rel) ==> Slashed(r) == rel
    ensures var after := RefreshAll(t, files, w, rels, directives, stuck);
            rel in after.written ==> Built(t, files, after.index, after.entries, rel, directives)
  {
    hide RefreshOne;
    hide Built;
    if rels != [] {
      var init, last := rels[..|rels| - 1], rels[|rels| - 1];
      assert rels == init + [last];
      RefreshAllBuilds(t, files, w, init, directives, stuck, rel);
      RefreshOneBuilds(t, files, RefreshAll(t, files, w, init, directives, stuck), last, directives, stuck, rel);
    }
  }

  lemma {:induction false} WrittenIsDirty(
    t: Tools, files: map<Rel, Bytes>, w: Work, rels: seq<Rel>, directives: seq<Directive>, stuck: set<string>)
    requires w.written == []
    ensures var after := RefreshAll(t, files, w, rels, directives, stuck);
      (after.written != [] ==> after.dirty)
      && forall rel :: rel in after.written ==> exists r :: r in rels && Slashed(r) == rel
  {
    if rels != [] {
      var init, last := rels[..|rels| - 1], rels[|rels| - 1];
      assert rels == init + [last];
      WrittenIsDirty(t, files, w, init, directives, stuck);
    }
  }

  /**
   * Every entry a refresh writes is built from the file's bytes with the symbols of the first
   * directive naming it, none without one, and indexed under the hash of the bytes and the
   * fingerprint of those symbols.
   */
  lemma RefreshBuildsWithTheFirstDirective(
    t: Tools, repo: Repo, rels: seq<Rel>, directives: seq<Directive>, stuck: set<string>, rel: Rel)
    requires DistinctEntries(rels)
    requires rel in RefreshAll(t, repo.files, StartRefresh(repo), rels, directives, stuck).written
    ensures var after := Refresh(t, repo, rels, directives, stuck);
      && rel in repo.files && rel in IndexOf(after) && EntryPath(rel) in after.entries
      && IndexOf(after)[rel].hash == t.hash(repo.files[rel])
      && exists symbols :: DirectedBy(t, rel, directives, symbols, IndexOf(after)[rel].enrichment)
                           && t.build(rel, repo.files[rel], symbols) == Some(after.entries[EntryPath(rel)])
  {
    WrittenIsDirty(t, repo.files, StartRefresh(repo), rels, directives, stuck);
    RefreshAllBuilds(t, repo.files, StartRefresh(repo), rels, directives, stuck, rel);
    FirstDirective(t, rel, directives);
  }

  /** The refresh's working variables after one more path, decided on the file, its row and its entry. */
  ghost predicate Refreshes(
    t: Tools, files: map<Rel, Bytes>, w: Work, after: Work, rel: Rel, stuck: set<string>,
    symbols: seq<string>, enrichment: Option<Digest>)
  {
    var current := rel in files && rel in w.index && EntryPath(rel) in w.entries
      && w.index[rel].hash == t.hash(files[rel]) && w.index[rel].enrichment == enrichment;
    if !t.mirrorable(rel) || current then after == w
    else if rel in files && t.build(rel, files[rel], symbols).Some? then
      && after.index == w.index[rel := IndexEntry(t.hash(files[rel]), enrichment)]
      && after.entries == w.entries[EntryPath(rel) := t.build(rel, files[rel], symbols).value]
      && after.dirty && after.written == w.written + [rel]
    else if rel in w.index then
      && after.index == w.index - {rel} && after.dirty && after.written == w.written
      && after.entries == if EntryPath(rel) in stuck then w.entries else w.entries - {EntryPath(rel)}
    else after == w
  }

  /**
   * What one more path does to a refresh: a current entry is left alone; a file that builds is
   * written; anything else is forgotten, its entry file removed unless that fails.
   */
  lemma OneMorePath(
    t: Tools, files: map<Rel, Bytes>, w: Work, rels: seq<Rel>, relRaw: Rel, directives: seq<Directive>, stuck: set<string>)
    ensures RefreshAll(t, files, w, [], directives, stuck) == w
    ensures exists rel, symbols, enrichment ::
      && ReadsAs(relRaw, rel) && DirectedBy(t, rel, directives, symbols, enrichment)
      && Refreshes(t, files, RefreshAll(t, files, w, rels, directives, stuck),
                   RefreshAll(t, files, w, rels + [relRaw], directives, stuck), rel, stuck, symbols, enrichment)
  {
    var rel := Slashed(relRaw);
    assert (rels + [relRaw])[..|rels|] == rels;
    FirstDirective(t, rel, directives);
    hide DirectedBy;
    assert Refreshes(t, files, RefreshAll(t, files, w, rels, directives, stuck),
                     RefreshAll(t, files, w, rels + [relRaw], directives, stuck), rel, stuck,
                     SymbolsFor(rel, directives), FingerprintFor(t, rel, directives));
  }

  /** A refresh that changes no row and no entry leaves the repository alone, a missing index missing. */
  lemma CleanRefreshTouchesNothing(t: Tools, repo: Repo, rels: seq<Rel>, directives: seq<Directive>, stuck: set<string>)
    ensures var w := RefreshAll(t, repo.files, StartRefresh(repo), rels, directives, stuck);
            !w.dirty ==> Refresh(t, repo, rels, directives, stuck) == repo && w.written == []
  {
    CleanMeansUnchanged(t, repo.files, StartRefresh(repo), rels, directives, stuck);
  }

  // ----- A second refresh writes nothing -----

  /** A refresh of this path would change nothing. */
  ghost predicate Settled(t: Tools, files: map<Rel, Bytes>, index: Index, entries: map<string, string>, rel: Rel, directives: seq<Directive>) {
    t.mirrorable(rel) ==>
      if rel in files && t.build(rel, files[rel], SymbolsFor(rel, directives)).Some?
      then UpToDate(t, files, Work(index, entries, false, []), rel, directives)
      else rel !in index || UpToDate(t, files, Work(index, entries, false, []), rel, directives)
  }

  lemma RefreshOneSettles(t: Tools, files: map<Rel, Bytes>, w: Work, relRaw: Rel, directives: seq<Directive>, stuck: set<string>)
    ensures var after := RefreshOne(t, files, w, relRaw, directives, stuck);
            Settled(t, files, after.index, after.entries, Slashed(relRaw), directives)
  {
  }

  lemma RefreshOneKeepsSettled(
    t: Tools, files: map<Rel, Bytes>, w: Work, relRaw: Rel, other: Rel, directives: seq<Directive>, stuck: set<string>)
    requires Settled(t, files, w.index, w.entries, other, directives)
    requires other != Slashed(relRaw) ==> EntryPath(other) != EntryPath(Slashed(relRaw))
    ensures var after := RefreshOne(t, files, w, relRaw, directives, stuck);
            Settled(t, files, after.index, after.entries, other, directives)
  {
  }

  lemma SettledIsLeftAlone(t: Tools, files: map<Rel, Bytes>, w: Work, relRaw: Rel, directives: seq<Directive>, stuck: set<string>)
    requires Settled(t, files, w.index, w.entries, Slashed(relRaw), directives)
    ensures RefreshOne(t, files, w, relRaw, directives, stuck) == w
  {
  }

  ghost predicate DistinctEntries(rels: seq<Rel>) {
    forall a, b :: a in rels && b in rels && EntryPath(Slashed(a)) == EntryPath(Slashed(b)) ==> Slashed(a) == Slashed(b)
  }

  lemma {:induction false} RefreshAllSettles(
    t: Tools, files: map<Rel, Bytes>, w: Work, rels: seq<Rel>, directives: seq<Directive>, stuck: set<string>)
    requires DistinctEntries(rels)
    ensures var after := RefreshAll(t, files, w, rels, directives, stuck);
            forall r :: r in rels ==> Settled(t, files, after.index, after.entries, Slashed(r), directives)
  {
    if rels != [] {
      var init, last := rels[..|rels| - 1], rels[|rels| - 1];
      assert rels == init + [last];
      RefreshAllSettles(t, files, w, init, directives, stuck);
      var before := RefreshAll(t, files, w, init, directives, stuck);
      RefreshOneSettles(t, files, before, last, directives, stuck);
      forall r | r in init
        ensures var after := RefreshOne(t, files, before, last, directives, stuck);
                Settled(t, files, after.index, after.entries, Slashed(r), directives)
      {
        RefreshOneKeepsSettled(t, files, before, last, Slashed(r), directives, stuck);
      }
    }
  }

  lemma {:induction false} SettledRefreshDoesNothing(
    t: Tools, files: map<Rel, Bytes>, w: Work, rels: seq<Rel>, directives: seq<Directive>, stuck: set<string>)
    requires forall r :: r in rels ==> Settled(t, files, w.index, w.entries, Slashed(r), directives)
    ensures RefreshAll(t, files, w, rels, directives, stuck) == w
  {
    if rels != [] {
      var init, last := rels[..|rels| - 1], rels[|rels| - 1];
      assert rels == init + [last];
      SettledRefreshDoesNothing(t, files, w, init, directives, stuck);
      SettledIsLeftAlone(t, files, w, last, directives, stuck);
    }
  }

  /** Refreshing again on unchanged input writes no entry and leaves the repository as it is. */
  lemma SecondRefreshWritesNothing(
    t: Tools, repo: Repo, rels: seq<Rel>, directives: seq<Directive>, stuck: set<string>, stuck': set<string>)
    requires DistinctEntries(rels)
    ensures var once := Refresh(t, repo, rels, directives, stuck);
      && Refresh(t, once, rels, directives, stuck') == once
      && RefreshAll(t, once.files, StartRefresh(once), rels, directives, stuck').written == []
  {
    var w := RefreshAll(t, repo.files, StartRefresh(repo), rels, directives, stuck);
    RefreshAllSettles(t, repo.files, StartRefresh(repo), rels, directives, stuck);
    CleanMeansUnchanged(t, repo.files, StartRefresh(repo), rels, directives, stuck);
    var once := Refresh(t, repo, rels, directives, stuck);
    assert StartRefresh(once) == Work(w.index, w.entries, false, []);
    SettledRefreshDoesNothing(t, once.files, StartRefresh(once), rels, directives, stuck');
  }

  lemma {:induction false} CleanMeansUnchanged(
    t: Tools, files: map<Rel, Bytes>, w: Work, rels: seq<Rel>, directives: seq<Directive>, stuck: set<string>)
    requires !w.dirty
    ensures var after := RefreshAll(t, files, w, rels, directives, stuck);
            !after.dirty ==> after == w
  {
    if rels != [] {
      CleanMeansUnchanged(t, files, w, rels[..|rels| - 1], directives, stuck);
    }
  }

  // ----- Fingerprints follow the learned directives -----

  /** Every indexed entry carries the fingerprint of the directive that matches it, if any. */
  ghost predicate FingerprintsAgree(t: Tools, index: Index, directives: seq<Directive>) {
    forall rel :: rel in index ==> index[rel].enrichment == FingerprintFor(t, rel, directives)
  }

  /** Index keys are the normalized paths of files with a builder: the only ones the writers use. */
  ghost predicate WellKeyed(t: Tools, index: Index) {
    forall rel :: rel in index ==> Slashed(rel) == rel && t.mirrorable(rel)
  }

  predicate Affected(rel: Rel, before: seq<Directive>, after: seq<Directive>) {
    EnrichmentFor(rel, before).Some? || EnrichmentFor(rel, after).Some?
  }

  /** Outside the affected paths no directive matches, before or after. */
  lemma UnaffectedKeepsFingerprint(t: Tools, rel: Rel, before: seq<Directive>, after: seq<Directive>)
    requires !Affected(rel, before, after)
    ensures FingerprintFor(t, rel, before) == FingerprintFor(t, rel, after)
  {
  }

  /** Refreshed paths carry the fingerprint of the directives in force; the others their old row. */
  ghost predicate FingerprintsRefreshed(t: Tools, index: Index, index': Index, rels: seq<Rel>, directives: seq<Directive>) {
    forall rel :: rel in index' ==>
      if rel in rels then index'[rel].enrichment == FingerprintFor(t, rel, directives)
      else rel in index && index'[rel] == index[rel]
  }

  lemma RefreshOneFingerprint(
    t: Tools, files: map<Rel, Bytes>, w: Work, rel: Rel, directives: seq<Directive>, stuck: set<string>)
    requires Slashed(rel) == rel && t.mirrorable(rel)
    ensures FingerprintsRefreshed(t, w.index, RefreshOne(t, files, w, rel, directives, stuck).index, [rel], directives)
  {
  }

  lemma {:induction false} RefreshAllFingerprints(
    t: Tools, files: map<Rel, Bytes>, w: Work, rels: seq<Rel>, directives: seq<Directive>, stuck: set<string>)
    requires forall r :: r in rels ==> Slashed(r) == r && t.mirrorable(r)
    ensures FingerprintsRefreshed(t, w.index, RefreshAll(t, files, w, rels, directives, stuck).index, rels, directives)
  {
    hide RefreshOne;
    hide FingerprintFor;
    if rels != [] {
      var init, last := rels[..|rels| - 1], rels[|rels| - 1];
      assert rels == init + [last];
      RefreshAllFingerprints(t, files, w, init, directives, stuck);
      RefreshOneFingerprint(t, files, RefreshAll(t, files, w, init, directives, stuck), last, directives, stuck);
    }
  }

  /**
   * The mirror update of a graduation pass: only indexed paths matching an old or a new directive
   * are refreshed, in any order.
   */
  ghost predicate IsAffectedList(rels: seq<Rel>, index: Index, before: seq<Directive>, after: seq<Directive>) {
    forall rel :: rel in rels <==> rel in index && Affected(rel, before, after)
  }

  /** Fingerprints that agreed with the directives before the pass agree with the new ones after it. */
  lemma PassKeepsFingerprintsInStep(
    t: Tools, repo: Repo, rels: seq<Rel>, before: seq<Directive>, after: seq<Directive>, stuck: set<string>)
    requires WellKeyed(t, IndexOf(repo)) && FingerprintsAgree(t, IndexOf(repo), before)
    requires IsAffectedList(rels, IndexOf(repo), before, after)
    ensures FingerprintsAgree(t, IndexOf(Refresh(t, repo, rels, after, stuck)), after)
  {
    var w := RefreshAll(t, repo.files, StartRefresh(repo), rels, after, stuck);
    RefreshAllFingerprints(t, repo.files, StartRefresh(repo), rels, after, stuck);
    CleanMeansUnchanged(t, repo.files, StartRefresh(repo), rels, after, stuck);
    forall rel | rel in w.index && rel !in rels
      ensures w.index[rel].enrichment == FingerprintFor(t, rel, after)
    {
      UnaffectedKeepsFingerprint(t, rel, before, after);
    }
  }

  /**
   * On-demand preparation builds without directives: it leaves the fingerprints in step exactly
   * when it has nothing to write (no such file, no builder, already fresh, nothing built) or no
   * directive matches the path.
   */
  lemma PrepareKeepsFingerprintsExactly(t: Tools, repo: Repo, relRaw: Rel, directives: seq<Directive>)
    requires FingerprintsAgree(t, IndexOf(repo), directives)
    ensures var rel := Slashed(relRaw);
      FingerprintsAgree(t, IndexOf(Prepare(t, repo, relRaw)), directives)
      <==> rel !in repo.files || !t.mirrorable(rel) || FreshFor(t, repo, rel, repo.files[rel])
           || t.prepare(rel, repo.files[rel]).None? || EnrichmentFor(rel, directives).None?
  {
    var after := Prepare(t, repo, relRaw);
    var rel := Slashed(relRaw);
    if rel !in repo.files || !t.mirrorable(rel) || FreshFor(t, repo, rel, repo.files[rel])
       || t.prepare(rel, repo.files[rel]).None? {
      assert after == repo;
    } else {
      assert rel in IndexOf(after) && IndexOf(after)[rel].enrichment == None;
      forall other | other in IndexOf(after) && other != rel
        ensures IndexOf(after)[other].enrichment == FingerprintFor(t, other, directives)
      {
        assert other in IndexOf(repo);
      }
    }
  }

  lemma {:induction false} RefreshKeepsWellKeyed(
    t: Tools, files: map<Rel, Bytes>, w: Work, rels: seq<Rel>, directives: seq<Directive>, stuck: set<string>)
    requires WellKeyed(t, w.index)
    ensures WellKeyed(t, RefreshAll(t, files, w, rels, directives, stuck).index)
  {
    if rels != [] {
      RefreshKeepsWellKeyed(t, files, w, rels[..|rels| - 1], directives, stuck);
      SlashedTwice(rels[|rels| - 1]);
    }
  }

  lemma SlashedTwice(path: string)
    ensures Slashed(Slashed(path)) == Slashed(path)
  {
  }

  /** Both writers keep the keys the fingerprint argument relies on. */
  lemma {:induction false} IndexStaysWellKeyed(t: Tools, repo: Repo, steps: seq<Step>)
    requires WellKeyed(t, IndexOf(repo))
    ensures WellKeyed(t, IndexOf(Execute(t, repo, steps)))
  {
    if steps != [] {
      var before := Execute(t, repo, steps[..|steps| - 1]);
      IndexStaysWellKeyed(t, repo, steps[..|steps| - 1]);
      match steps[|steps| - 1]
      case RefreshStep(rels, directives, stuck) =>
        RefreshKeepsWellKeyed(t, before.files, StartRefresh(before), rels, directives, stuck);
      case PrepareStep(rel) => SlashedTwice(rel);
      case _ =>
    }
  }
}
