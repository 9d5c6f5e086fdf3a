/**
 * The DHT key scheme. A branch `ref` of repository `repoName` is keyed by
 * `repoName:ref` with every `/` of the ref turned into `:`; its head entry
 * adds `:head`, each ancestor entry adds `:<commit id>`, and the
 * repository's summary entry is keyed by the bare repository name, with
 * the comma-joined selected refs as its value.
 */
module Keys {
  import opened Text
  import opened Repo

  function KeyBase(repoName: string, ref: string): string {
    repoName + ":" + Replace(ref, "/", ":")
  }

  function HeadKey(repoName: string, ref: string): string {
    KeyBase(repoName, ref) + ":head"
  }

  function AncestorKey(base: string, sha: CommitId): string {
    base + ":" + sha
  }

  function SummaryKey(repoName: string): string {
    repoName
  }

  function SummaryValue(selectedRefs: seq<string>): string {
    Join(selectedRefs, ',')
  }

  /**
   * The base key is the repository name, a colon, then the ref with each
   * `/` replaced by `:` and every other character kept.
   */
  lemma KeyBaseLayout(repoName: string, ref: string)
    ensures var k := KeyBase(repoName, ref);
      |k| == |repoName| + 1 + |ref| && k[..|repoName|] == repoName && k[|repoName|] == ':'
      && forall i :: 0 <= i < |ref| ==>
           k[|repoName| + 1 + i] == if ref[i] == '/' then ':' else ref[i]
  {
    ReplaceChar(ref, '/', ':');
    var k := KeyBase(repoName, ref);
    var tail := Replace(ref, "/", ":");
    forall i | 0 <= i < |ref| ensures k[|repoName| + 1 + i] == if ref[i] == '/' then ':' else ref[i] {
      assert k[|repoName| + 1 + i] == tail[i];
    }
  }

  /**
   * Repository names and ref names without colons (git forbids `:` in
   * ref names) never share a base key.
   */
  lemma KeyBaseInjective(n1: string, r1: string, n2: string, r2: string)
    requires ':' !in n1 && ':' !in n2 && ':' !in r1 && ':' !in r2
    requires KeyBase(n1, r1) == KeyBase(n2, r2)
    ensures n1 == n2 && r1 == r2
  {
    var k := KeyBase(n1, r1);
    KeyBaseLayout(n1, r1);
    KeyBaseLayout(n2, r2);
    assert n1 == n2;
    assert |r1| == |r2|;
    forall i | 0 <= i < |r1| ensures r1[i] == r2[i] {
      var c := k[|n1| + 1 + i];
      if r1[i] == '/' || r2[i] == '/' {
        assert c == ':';
      }
    }
  }

  /**
   * Within one base key, ancestor keys of different commits differ, and
   * the head key differs from every ancestor key of a proper commit id.
   */
  lemma AncestorKeysDistinct(base: string, a: CommitId, b: CommitId)
    ensures AncestorKey(base, a) == AncestorKey(base, b) ==> a == b
    ensures IsCommitId(a) ==> AncestorKey(base, a) != base + ":head"
  {
    if AncestorKey(base, a) == AncestorKey(base, b) {
      var n := |base| + 1;
      assert a == AncestorKey(base, a)[n..];
      assert b == AncestorKey(base, b)[n..];
    }
  }
}
