/**
 * The start-up pass over the configuration sections: every section other
 * than `global` names a repository; one whose path does not exist is
 * skipped, every other one gets its branch selection.
 */
module Startup {
  import opened Repo
  import opened Selection

  datatype Option<T> = None | Some(value: T)

  /** The section holding node-wide settings rather than a repository. */
  const GlobalSection: string := "global"

  /** The branch list of a section that does not set one. */
  const DefaultBranches: string := "master"

  /** One configuration section: its name, its `path` and its `branches` setting, if any. */
  datatype SectionConfig = SectionConfig(name: string, path: string, branches: Option<string>)

  /** A repository to publish: its name, its contents and its selected refs. */
  datatype RepoEntry = RepoEntry(name: string, repo: Repository, selectedRefs: seq<string>)

  /** The `branches` setting in effect for a section. */
  function BranchesSetting(section: SectionConfig): string {
    match section.branches
    case Some(setting) => setting
    case None => DefaultBranches
  }

  /** The entry a kept section produces, given the repository found at its path. */
  function EntryFor(section: SectionConfig, repo: Repository): RepoEntry {
    RepoEntry(section.name, repo,
      Selected(HeadBranches(repo.refNames), ParsePatterns(BranchesSetting(section))))
  }

  /**
   * The repositories taken from the sections, in section order. `disk`
   * maps each existing path to the repository stored there.
   */
  function Loaded(sections: seq<SectionConfig>, disk: map<string, Repository>): seq<RepoEntry> {
    if sections == [] then []
    else
      var s := sections[|sections| - 1];
      Loaded(sections[..|sections| - 1], disk)
        + (if s.name != GlobalSection && s.path in disk then [EntryFor(s, disk[s.path])] else [])
  }

  /** The loop over the configuration sections. */
  method LoadRepos(sections: seq<SectionConfig>, disk: map<string, Repository>) returns (repos: seq<RepoEntry>)
    ensures repos == Loaded(sections, disk)
  {
    repos := [];
    var i := 0;
    while i < |sections|
      invariant 0 <= i <= |sections|
      invariant repos == Loaded(sections[..i], disk)
    {
      var section := sections[i];
      if section.name != GlobalSection {
        var repoPath := section.path;
        if repoPath in disk {
          var repo := disk[repoPath];
          var desired := ParsePatterns(BranchesSetting(section));
          var selectedRefs := SelectRefs(repo.refNames, desired);
          repos := repos + [RepoEntry(section.name, repo, selectedRefs)];
        }
      }
      assert sections[..i + 1][..i] == sections[..i];
      i := i + 1;
    }
    assert sections[..|sections|] == sections;
  }

  /**
   * Every loaded entry comes from a non-global section whose path exists,
   * and every such section gives an entry: a missing repository only
   * drops its own section.
   */
  lemma {:induction false} LoadedSections(sections: seq<SectionConfig>, disk: map<string, Repository>)
    ensures forall e :: e in Loaded(sections, disk) ==>
              exists s :: s in sections && s.name != GlobalSection && s.path in disk && e == EntryFor(s, disk[s.path])
    ensures forall s :: s in sections && s.name != GlobalSection && s.path in disk ==>
              EntryFor(s, disk[s.path]) in Loaded(sections, disk)
  {
    if sections != [] {
      var init := sections[..|sections| - 1];
      LoadedSections(init, disk);
      assert sections == init + [sections[|sections| - 1]];
    }
  }

  /** No loaded entry is the `global` section. */
  lemma LoadedSkipsGlobal(sections: seq<SectionConfig>, disk: map<string, Repository>)
    ensures forall e :: e in Loaded(sections, disk) ==> e.name != GlobalSection
  {
    LoadedSections(sections, disk);
  }

  /** Every selected ref of an entry is a branch the repository has. */
  lemma EntryRefsAreBranches(section: SectionConfig, repo: Repository)
    ensures forall r :: r in EntryFor(section, repo).selectedRefs ==> r in repo.refNames && IsBranch(r)
  {
    var patterns := ParsePatterns(BranchesSetting(section));
    forall r | r in EntryFor(section, repo).selectedRefs ensures r in repo.refNames && IsBranch(r) {
      SelectedMembership(HeadBranches(repo.refNames), patterns, r);
      HeadBranchesMembers(repo.refNames);
    }
  }

  /** Every selected ref of a loaded entry is a branch the repository has. */
  lemma {:induction false} LoadedRefsAreBranches(sections: seq<SectionConfig>, disk: map<string, Repository>)
    ensures forall e :: e in Loaded(sections, disk) ==>
              forall r :: r in e.selectedRefs ==> r in e.repo.refNames && IsBranch(r)
  {
    if sections != [] {
      var s := sections[|sections| - 1];
      var init := sections[..|sections| - 1];
      LoadedRefsAreBranches(init, disk);
      if s.name != GlobalSection && s.path in disk {
        EntryRefsAreBranches(s, disk[s.path]);
        assert Loaded(sections, disk) == Loaded(init, disk) + [EntryFor(s, disk[s.path])];
      } else {
        assert Loaded(sections, disk) == Loaded(init, disk);
      }
    }
  }
}
