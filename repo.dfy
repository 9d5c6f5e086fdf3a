/**
 * The read-only view of a local repository that the core uses: the refs
 * in the order the repository enumerates them, what each ref points at,
 * and the parent list of every commit object present.
 */
module Repo {

  /** A commit id as the repository hands it out (hex SHA-1 text). */
  type CommitId = string

  /** The namespace of local branches. */
  const HeadsPrefix: string := "refs/heads/"

  /** `ref` names a local branch. */
  predicate IsBranch(ref: string) {
    HeadsPrefix <= ref
  }

  predicate IsHexDigit(c: char) {
    '0' <= c <= '9' || 'a' <= c <= 'f'
  }

  /** A full 40-digit lower-case hex SHA-1, the form commit ids take. */
  predicate IsCommitId(c: string) {
    |c| == 40 && forall i :: 0 <= i < |c| ==> IsHexDigit(c[i])
  }

  /** Every parent of a commit in the map is itself in the map. */
  predicate ParentsClosed(parents: map<CommitId, seq<CommitId>>) {
    forall c, q :: c in parents && q in parents[c] ==> q in parents
  }

  datatype Repository = Repository(
    refNames: seq<string>,
    refs: map<string, CommitId>,
    parents: map<CommitId, seq<CommitId>>)
  {
    /**
     * `refNames` enumerates the refs once each, every branch points at a
     * commit that is present, and no present commit has a missing parent.
     */
    predicate Valid() {
      (forall r :: r in refNames ==> r in refs) && (forall r :: r in refs ==> r in refNames)
      && (forall i, j :: 0 <= i < j < |refNames| ==> refNames[i] != refNames[j])
      && (forall r :: r in refs && IsBranch(r) ==> refs[r] in parents)
      && ParentsClosed(parents)
    }
  }
}
