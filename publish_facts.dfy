/**
 * What the start-up publication amounts to: per ref, a head entry and one
 * entry for each ancestor of the head, all valued by the head; per
 * repository, a summary entry under the bare name whose value splits back
 * into the selected refs exactly when the selection is non-empty and no
 * ref holds a comma; and every
 * loaded repository can be published.
 */
module PublishFacts {
  import opened Text
  import opened Repo
  import opened History
  import opened Keys
  import opened Startup
  import opened Publish

  /** The ancestor entries list the walk in order, each valued by the head. */
  lemma {:induction false} AncestorEntriesShape(base: string, head: CommitId, shas: seq<CommitId>)
    ensures |AncestorEntries(base, head, shas)| == |shas|
    ensures forall i :: 0 <= i < |shas| ==>
              AncestorEntries(base, head, shas)[i] == Entry(AncestorKey(base, shas[i]), head)
  {
    if shas != [] {
      var init := shas[..|shas| - 1];
      AncestorEntriesShape(base, head, init);
      var r := AncestorEntries(base, head, shas);
      forall i | 0 <= i < |init| ensures r[i] == Entry(AncestorKey(base, shas[i]), head) {
        assert r[i] == AncestorEntries(base, head, init)[i];
        assert init[i] == shas[i];
      }
    }
  }

  /** `key` is `prefix`, a colon, and possibly more. */
  predicate KeyUnder(key: string, prefix: string) {
    |key| > |prefix| && key[..|prefix| + 1] == prefix + ":"
  }

  /** Every key a ref publishes lies under its base key. */
  lemma RefKeysUnderBase(repoName: string, repo: Repository, ref: string)
    requires repo.Valid() && ref in repo.refs && IsBranch(ref)
    ensures forall i :: 0 <= i < |RefEntries(repoName, repo, ref)| ==>
              KeyUnder(RefEntries(repoName, repo, ref)[i].key, KeyBase(repoName, ref))
  {
    var base := KeyBase(repoName, ref);
    var head := repo.refs[ref];
    var walk := Walk(repo.parents, head);
    var es := RefEntries(repoName, repo, ref);
    AncestorEntriesShape(base, head, walk);
    forall i | 0 <= i < |es| ensures KeyUnder(es[i].key, base) {
      if i > 0 {
        assert es[i].key == base + ":" + walk[i - 1];
      } else {
        assert es[i].key == base + ":" + "head";
      }
    }
  }

  /**
   * A ref publishes its head entry first, then exactly one entry for each
   * ancestor of its head commit and for nothing else, every entry valued
   * by the head; the head commit gets an ancestor entry only when it lies
   * on a cycle of the history.
   */
  lemma RefEntriesContents(repoName: string, repo: Repository, ref: string)
    requires repo.Valid() && ref in repo.refs && IsBranch(ref)
    ensures var es := RefEntries(repoName, repo, ref);
      var head := repo.refs[ref];
      var base := KeyBase(repoName, ref);
      |es| >= 1 && es[0] == Entry(HeadKey(repoName, ref), head)
      && (forall i :: 0 <= i < |es| ==> es[i].value == head)
      && (forall i :: 1 <= i < |es| ==>
            exists c :: IsAncestor(repo.parents, head, c) && es[i] == Entry(AncestorKey(base, c), head))
      && (forall c :: Entry(AncestorKey(base, c), head) in es[1..] <==> IsAncestor(repo.parents, head, c))
      && (forall i, j :: 1 <= i < j < |es| ==> es[i].key != es[j].key)
      && (Acyclic(repo.parents) ==> Entry(AncestorKey(base, head), head) !in es[1..])
  {
    var head := repo.refs[ref];
    AncestorEntriesShape(KeyBase(repoName, ref), head, Walk(repo.parents, head));
    RefEntriesOnlyAncestors(repoName, repo, ref);
    RefAncestorMembers(repoName, repo, ref);
    RefAncestorKeysDistinct(repoName, repo, ref);
  }

  /**
   * A commit has an ancestor entry exactly when it is an ancestor of the
   * head, so the head has one only on a cycle.
   */
  lemma RefAncestorMembers(repoName: string, repo: Repository, ref: string)
    requires repo.Valid() && ref in repo.refs && IsBranch(ref)
    ensures var es := RefEntries(repoName, repo, ref);
      var head := repo.refs[ref];
      var base := KeyBase(repoName, ref);
      |es| >= 1
      && (forall c :: Entry(AncestorKey(base, c), head) in es[1..] <==> IsAncestor(repo.parents, head, c))
      && (Acyclic(repo.parents) ==> Entry(AncestorKey(base, head), head) !in es[1..])
  {
    var es := RefEntries(repoName, repo, ref);
    var head := repo.refs[ref];
    var base := KeyBase(repoName, ref);
    var walk := Walk(repo.parents, head);
    AncestorEntriesShape(base, head, walk);
    WalkIsAncestors(repo.parents, head);
    WalkListsHeadOnlyOnCycle(repo.parents, head);
    var anc := es[1..];
    assert anc == AncestorEntries(base, head, walk);
    forall c ensures Entry(AncestorKey(base, c), head) in anc <==> c in walk {
      if Entry(AncestorKey(base, c), head) in anc {
        var i :| 0 <= i < |anc| && anc[i] == Entry(AncestorKey(base, c), head);
        AncestorKeysDistinct(base, c, walk[i]);
      }
      if c in walk {
        var i :| 0 <= i < |walk| && walk[i] == c;
        assert anc[i] == Entry(AncestorKey(base, c), head);
      }
    }
  }

  /** The ancestor entries of a ref have pairwise different keys. */
  lemma RefAncestorKeysDistinct(repoName: string, repo: Repository, ref: string)
    requires repo.Valid() && ref in repo.refs && IsBranch(ref)
    ensures var es := RefEntries(repoName, repo, ref);
      forall i, j :: 1 <= i < j < |es| ==> es[i].key != es[j].key
  {
    var es := RefEntries(repoName, repo, ref);
    var head := repo.refs[ref];
    var base := KeyBase(repoName, ref);
    var walk := Walk(repo.parents, head);
    AncestorEntriesShape(base, head, walk);
    WalkDistinct(repo.parents, head);
    forall i, j | 1 <= i < j < |es| ensures es[i].key != es[j].key {
      AncestorKeysDistinct(base, walk[i - 1], walk[j - 1]);
    }
  }

  /** Every entry of a ref after its head entry is the ancestor entry of an ancestor of the head. */
  lemma RefEntriesOnlyAncestors(repoName: string, repo: Repository, ref: string)
    requires repo.Valid() && ref in repo.refs && IsBranch(ref)
    ensures var es := RefEntries(repoName, repo, ref);
      var head := repo.refs[ref];
      forall i :: 1 <= i < |es| ==>
        exists c :: IsAncestor(repo.parents, head, c) && es[i] == Entry(AncestorKey(KeyBase(repoName, ref), c), head)
  {
    var es := RefEntries(repoName, repo, ref);
    var head := repo.refs[ref];
    var base := KeyBase(repoName, ref);
    var walk := Walk(repo.parents, head);
    AncestorEntriesShape(base, head, walk);
    WalkIsAncestors(repo.parents, head);
    forall i | 1 <= i < |es|
      ensures exists c :: IsAncestor(repo.parents, head, c) && es[i] == Entry(AncestorKey(base, c), head)
    {
      assert walk[i - 1] in walk;
      assert es[i] == Entry(AncestorKey(base, walk[i - 1]), head);
    }
  }

  /**
   * When every commit id is a 40-digit hex id, no two entries of a ref
   * share a key: the head key is never an ancestor key.
   */
  lemma RefKeysDistinct(repoName: string, repo: Repository, ref: string)
    requires repo.Valid() && ref in repo.refs && IsBranch(ref)
    requires forall c :: c in repo.parents ==> IsCommitId(c)
    ensures var es := RefEntries(repoName, repo, ref);
      forall i, j :: 0 <= i < j < |es| ==> es[i].key != es[j].key
  {
    var es := RefEntries(repoName, repo, ref);
    var head := repo.refs[ref];
    var base := KeyBase(repoName, ref);
    var walk := Walk(repo.parents, head);
    AncestorEntriesShape(base, head, walk);
    WalkInGraph(repo.parents, head);
    WalkDistinct(repo.parents, head);
    assert es[0].key == base + ":head";
    forall i, j | 0 <= i < j < |es| ensures es[i].key != es[j].key {
      assert es[j].key == AncestorKey(base, walk[j - 1]);
      if i == 0 {
        assert walk[j - 1] in walk;
        AncestorKeysDistinct(base, walk[j - 1], walk[j - 1]);
      } else {
        AncestorKeysDistinct(base, walk[i - 1], walk[j - 1]);
      }
    }
  }

  /** Every key the refs of a repository publish lies under its name. */
  lemma {:induction false} RefsKeysUnderName(repoName: string, repo: Repository, refs: seq<string>)
    requires repo.Valid() && forall r :: r in refs ==> r in repo.refs && IsBranch(r)
    ensures forall i :: 0 <= i < |RefsEntries(repoName, repo, refs)| ==>
              KeyUnder(RefsEntries(repoName, repo, refs)[i].key, repoName)
  {
    if refs != [] {
      var ref := refs[|refs| - 1];
      RefsKeysUnderName(repoName, repo, refs[..|refs| - 1]);
      RefKeysUnderBase(repoName, repo, ref);
      KeyBaseLayout(repoName, ref);
      var base := KeyBase(repoName, ref);
      assert base[..|repoName| + 1] == repoName + ":";
      KeysUnderAppend(RefsEntries(repoName, repo, refs[..|refs| - 1]), RefEntries(repoName, repo, ref), repoName, base);
    }
  }

  /** Keys under a longer prefix that itself lies under `name` lie under `name`. */
  lemma KeysUnderAppend(prev: seq<Entry>, mine: seq<Entry>, name: string, base: string)
    requires |base| > |name| && base[..|name| + 1] == name + ":"
    requires forall i :: 0 <= i < |prev| ==> KeyUnder(prev[i].key, name)
    requires forall i :: 0 <= i < |mine| ==> KeyUnder(mine[i].key, base)
    ensures forall i :: 0 <= i < |prev + mine| ==> KeyUnder((prev + mine)[i].key, name)
  {
    forall i | |prev| <= i < |prev + mine| ensures KeyUnder((prev + mine)[i].key, name) {
      var key := mine[i - |prev|].key;
      assert key[..|name| + 1] == key[..|base| + 1][..|name| + 1];
    }
  }

  /**
   * A repository's entries end with its summary: keyed by the bare name,
   * a key no other entry of the repository uses, and valued by the
   * comma-joined selected refs, which split back into the selection
   * exactly when it is non-empty and no selected ref contains a comma.
   */
  lemma RepoEntriesSummary(e: RepoEntry)
    requires Publishable(e)
    ensures var es := RepoEntries(e);
      |es| >= 1 && es[|es| - 1] == Entry(e.name, Join(e.selectedRefs, ','))
      && (forall i :: 0 <= i < |es| - 1 ==> es[i].key != e.name)
      && (Split(es[|es| - 1].value, ',') == e.selectedRefs
          <==> e.selectedRefs != [] && forall r :: r in e.selectedRefs ==> ',' !in r)
  {
    var es := RepoEntries(e);
    var refsPart := RefsEntries(e.name, e.repo, e.selectedRefs);
    RefsKeysUnderName(e.name, e.repo, e.selectedRefs);
    forall i | 0 <= i < |es| - 1 ensures es[i].key != e.name {
      assert es[i] == refsPart[i];
    }
    SplitJoin(e.selectedRefs, ',');
  }

  /** The start-up publishes the summary entry of every repository. */
  lemma {:induction false} PlanHasSummaries(repos: seq<RepoEntry>)
    ensures forall e :: e in repos ==> Entry(e.name, Join(e.selectedRefs, ',')) in Plan(repos)
  {
    if repos != [] {
      var last := repos[|repos| - 1];
      var init := repos[..|repos| - 1];
      PlanHasSummaries(init);
      var plan := Plan(repos);
      assert plan == Plan(init) + RepoEntries(last);
      assert plan[|plan| - 1] == Entry(last.name, Join(last.selectedRefs, ','));
      forall e | e in repos ensures Entry(e.name, Join(e.selectedRefs, ',')) in plan {
        if e != last {
          assert e in init by { assert repos == init + [last]; }
        }
      }
    }
  }

  /** An entry built from a well-formed repository can be published. */
  lemma EntryPublishable(section: SectionConfig, repo: Repository)
    requires repo.Valid()
    ensures Publishable(EntryFor(section, repo))
  {
    EntryRefsAreBranches(section, repo);
  }

  /** Every repository loaded from well-formed repositories on disk can be published. */
  lemma LoadedPublishable(sections: seq<SectionConfig>, disk: map<string, Repository>)
    requires forall p :: p in disk ==> disk[p].Valid()
    ensures forall e :: e in Loaded(sections, disk) ==> Publishable(e)
  {
    LoadedSections(sections, disk);
    forall e | e in Loaded(sections, disk) ensures Publishable(e) {
      var s :| s in sections && s.name != GlobalSection && s.path in disk && e == EntryFor(s, disk[s.path]);
      EntryPublishable(s, disk[s.path]);
    }
  }
}
