/**
 * The node start-up: for every repository and every selected ref, the
 * head entry, then one entry per ancestor found by the walk, and after a
 * repository's refs its summary entry. The DHT `publishData` call is
 * modelled by the log of (key, value) pairs it receives, in order.
 */
module Publish {
  import opened Text
  import opened Repo
  import opened History
  import opened Keys
  import opened Startup

  /** One `publishData(key, value)` call. */
  datatype Entry = Entry(key: string, value: string)

  /** Every selected ref is a branch of a well-formed repository. */
  predicate Publishable(e: RepoEntry) {
    e.repo.Valid() && forall r :: r in e.selectedRefs ==> r in e.repo.refs && IsBranch(r)
  }

  /** The ancestor entries of a ref: keyed by each ancestor, valued by the head. */
  function AncestorEntries(base: string, head: CommitId, shas: seq<CommitId>): seq<Entry> {
    if shas == [] then []
    else AncestorEntries(base, head, shas[..|shas| - 1]) + [Entry(AncestorKey(base, shas[|shas| - 1]), head)]
  }

  /**
   * What one selected ref publishes: its head entry, then its ancestor
   * entries. Selected refs are taken from the repository's own refs, so
   * the case of a ref it does not have never arises; it publishes nothing.
   */
  function RefEntries(repoName: string, repo: Repository, ref: string): seq<Entry> {
    if ref !in repo.refs then []
    else
      var head := repo.refs[ref];
      [Entry(HeadKey(repoName, ref), head)]
        + AncestorEntries(KeyBase(repoName, ref), head, Walk(repo.parents, head))
  }

  /** What the refs of a repository publish, ref after ref. */
  function RefsEntries(repoName: string, repo: Repository, refs: seq<string>): seq<Entry> {
    if refs == [] then []
    else RefsEntries(repoName, repo, refs[..|refs| - 1]) + RefEntries(repoName, repo, refs[|refs| - 1])
  }

  /** What a repository publishes: its refs' entries, then its summary entry. */
  function RepoEntries(e: RepoEntry): seq<Entry> {
    RefsEntries(e.name, e.repo, e.selectedRefs) + [Entry(SummaryKey(e.name), SummaryValue(e.selectedRefs))]
  }

  /** The whole start-up publication, repository after repository. */
  function Plan(repos: seq<RepoEntry>): seq<Entry> {
    if repos == [] then []
    else Plan(repos[..|repos| - 1]) + RepoEntries(repos[|repos| - 1])
  }

  /** The DHT node, seen through the entries it has been asked to publish. */
  class GitDht {
    var repos: seq<RepoEntry>
    var published: seq<Entry>

    /** Start-up: publish everything for every repository. */
    constructor(repos: seq<RepoEntry>)
      requires forall e :: e in repos ==> Publishable(e)
      ensures this.repos == repos && published == Plan(repos)
    {
      this.repos := repos;
      published := [];
      new;
      PublishAll(repos);
    }

    /** Every repository in turn. */
    method PublishAll(repos: seq<RepoEntry>)
      requires forall e :: e in repos ==> Publishable(e)
      modifies this`published
      ensures published == old(published) + Plan(repos)
    {
      ghost var start := published;
      var i := 0;
      while i < |repos|
        invariant 0 <= i <= |repos|
        invariant published == start + Plan(repos[..i])
      {
        PlanStep(start, repos, i);
        PublishRepo(repos[i]);
        i := i + 1;
      }
      assert repos[..i] == repos;
    }

    /** The selected refs of one repository, then its summary. */
    method PublishRepo(e: RepoEntry)
      requires Publishable(e)
      modifies this`published
      ensures published == old(published) + RepoEntries(e)
    {
      ghost var start := published;
      PublishRefs(e.name, e.repo, e.selectedRefs);
      AppendAssoc(start, RefsEntries(e.name, e.repo, e.selectedRefs), [Entry(SummaryKey(e.name), SummaryValue(e.selectedRefs))]);
      PublishData(e.name, Join(e.selectedRefs, ','));
    }

    /** The selected refs of one repository, one after the other. */
    method PublishRefs(repoName: string, repo: Repository, refs: seq<string>)
      requires repo.Valid() && forall r :: r in refs ==> r in repo.refs && IsBranch(r)
      modifies this`published
      ensures published == old(published) + RefsEntries(repoName, repo, refs)
    {
      ghost var start := published;
      var j := 0;
      while j < |refs|
        invariant 0 <= j <= |refs|
        invariant published == start + RefsEntries(repoName, repo, refs[..j])
      {
        RefsStep(start, repoName, repo, refs, j);
        PublishRef(repoName, repo, refs[j]);
        j := j + 1;
      }
      assert refs[..j] == refs;
    }

    /** The DHT's publish call; only the request is recorded. */
    method PublishData(key: string, value: string)
      modifies this`published
      ensures published == old(published) + [Entry(key, value)]
    {
      published := published + [Entry(key, value)];
    }

    /**
     * The head entry of one ref, then the walk: pop the last work item,
     * skip it if seen, else mark it seen, push its unseen parents and
     * publish its ancestor entry.
     */
    method PublishRef(repoName: string, repo: Repository, ref: string)
      requires repo.Valid() && ref in repo.refs && IsBranch(ref)
      modifies this`published
      ensures published == old(published) + RefEntries(repoName, repo, ref)
    {
      var parents := repo.parents;
      var head := repo.refs[ref];
      var key := KeyBase(repoName, ref);
      ghost var before := published;
      PublishData(key + ":head", head);
      ghost var start := published;
      var seen: seq<CommitId> := [];
      var tosee := Unseen(parents[head], seen);
      UnseenInGraph(parents, head, seen, []);
      assert [] + tosee == tosee;
      while |tosee| > 0
        invariant InGraph(parents, tosee)
        invariant DfsOrder(parents, tosee, seen) == Walk(parents, head)
        invariant published == start + AncestorEntries(key, head, seen)
        decreases parents.Keys - Elems(seen), |tosee|
      {
        var sha := tosee[|tosee| - 1];
        if sha in seen {
          DfsPopSeen(parents, tosee, seen);
          tosee := tosee[..|tosee| - 1];
        } else {
          DfsPopUnseen(parents, tosee, seen);
          assert Elems(seen + [sha]) == Elems(seen) + {sha};
          AncestorEntriesSnoc(key, head, seen, sha);
          AppendAssoc(start, AncestorEntries(key, head, seen), [Entry(AncestorKey(key, sha), head)]);
          seen := seen + [sha];
          UnseenInGraph(parents, sha, seen, tosee[..|tosee| - 1]);
          tosee := PushUnseen(tosee[..|tosee| - 1], parents[sha], seen);
          PublishData(AncestorKey(key, sha), head);
        }
      }
      AppendAssoc(before, [Entry(HeadKey(repoName, ref), head)], AncestorEntries(key, head, seen));
    }
  }

  /** Publishing one more repository appends its entries to what the earlier ones published. */
  lemma PlanStep(start: seq<Entry>, repos: seq<RepoEntry>, i: nat)
    requires i < |repos|
    ensures start + Plan(repos[..i + 1]) == start + Plan(repos[..i]) + RepoEntries(repos[i])
  {
    assert repos[..i + 1][..i] == repos[..i];
    AppendAssoc(start, Plan(repos[..i]), RepoEntries(repos[i]));
  }

  /** Publishing one more ref appends its entries to what the earlier refs published. */
  lemma RefsStep(start: seq<Entry>, repoName: string, repo: Repository, refs: seq<string>, j: nat)
    requires j < |refs|
    ensures start + RefsEntries(repoName, repo, refs[..j + 1])
         == start + RefsEntries(repoName, repo, refs[..j]) + RefEntries(repoName, repo, refs[j])
  {
    assert refs[..j + 1][..j] == refs[..j];
    AppendAssoc(start, RefsEntries(repoName, repo, refs[..j]), RefEntries(repoName, repo, refs[j]));
  }

  /** Appending one commit to the walk appends its ancestor entry. */
  lemma AncestorEntriesSnoc(base: string, head: CommitId, shas: seq<CommitId>, sha: CommitId)
    ensures AncestorEntries(base, head, shas + [sha])
         == AncestorEntries(base, head, shas) + [Entry(AncestorKey(base, sha), head)]
  {
    assert (shas + [sha])[..|shas|] == shas;
  }

  /** The inner loop of the walk: push, in order, each candidate not yet seen. */
  method PushUnseen(tosee: seq<CommitId>, cands: seq<CommitId>, seen: seq<CommitId>) returns (r: seq<CommitId>)
    ensures r == tosee + Unseen(cands, seen)
  {
    r := tosee;
    var j := 0;
    while j < |cands|
      invariant 0 <= j <= |cands|
      invariant r == tosee + Unseen(cands[..j], seen)
    {
      if cands[j] !in seen {
        r := r + [cands[j]];
      }
      assert cands[..j + 1][..j] == cands[..j];
      j := j + 1;
    }
    assert cands[..j] == cands;
  }
}
