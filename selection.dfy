/**
 * Which refs of a repository are published: the local branches, each
 * appended once for every configured pattern that matches either its
 * full name or its name with `refs/heads/` removed.
 */
module Selection {
  import opened Text
  import opened Repo
  import Glob

  /** The refs that are local branches, in enumeration order. */
  function HeadBranches(refNames: seq<string>): (branches: seq<string>)
    ensures |branches| <= |refNames|
  {
    if refNames == [] then []
    else
      var last := refNames[|refNames| - 1];
      HeadBranches(refNames[..|refNames| - 1]) + (if IsBranch(last) then [last] else [])
  }

  /** Exactly the local branches among the refs are kept. */
  lemma {:induction false} HeadBranchesMembers(refNames: seq<string>)
    ensures forall b :: b in HeadBranches(refNames) <==> b in refNames && IsBranch(b)
  {
    if refNames != [] {
      var init := refNames[..|refNames| - 1];
      HeadBranchesMembers(init);
      assert refNames == init + [refNames[|refNames| - 1]];
    }
  }

  /**
   * The configured branch list: the setting split at every comma, each
   * piece stripped of surrounding whitespace.
   */
  function ParsePatterns(setting: string): (patterns: seq<string>)
    ensures |patterns| == Count(',', setting) + 1
  {
    SplitLength(setting, ',');
    StripAll(Split(setting, ','))
  }

  /** Each piece stripped, in order. */
  function StripAll(pieces: seq<string>): (r: seq<string>)
    ensures |r| == |pieces|
  {
    if pieces == [] then [] else [Strip(pieces[0])] + StripAll(pieces[1..])
  }

  lemma {:induction false} StripAllAt(pieces: seq<string>)
    ensures forall i :: 0 <= i < |pieces| ==> StripAll(pieces)[i] == Strip(pieces[i])
  {
    if pieces != [] {
      StripAllAt(pieces[1..]);
    }
  }

  /** No pattern holds a comma or starts or ends with whitespace. */
  lemma ParsePatternsShape(setting: string)
    ensures forall d :: d in ParsePatterns(setting) ==>
              ',' !in d && (d == [] || (!IsSpace(d[0]) && !IsSpace(d[|d| - 1])))
  {
    SplitPiecesFree(setting, ',');
    StripAllShape(Split(setting, ','));
  }

  /** Stripping comma-free pieces gives comma-free pieces without surrounding whitespace. */
  lemma {:induction false} StripAllShape(pieces: seq<string>)
    requires forall p :: p in pieces ==> ',' !in p
    ensures forall d :: d in StripAll(pieces) ==>
              ',' !in d && (d == [] || (!IsSpace(d[0]) && !IsSpace(d[|d| - 1])))
  {
    if pieces != [] {
      assert forall p :: p in pieces[1..] ==> p in pieces;
      StripAllShape(pieces[1..]);
      StripKeepsOut(pieces[0], ',');
      StripEnds(pieces[0]);
    }
  }

  /** A setting without whitespace is given back by joining its patterns. */
  lemma ParsePatternsJoin(setting: string)
    requires forall i :: 0 <= i < |setting| ==> !IsSpace(setting[i])
    ensures Join(ParsePatterns(setting), ',') == setting
  {
    var pieces := Split(setting, ',');
    JoinSplit(setting, ',');
    StripAllAt(pieces);
    forall i | 0 <= i < |pieces| ensures Strip(pieces[i]) == pieces[i] {
      PieceOfSpaceless(setting, i);
      StripInfix(pieces[i]);
    }
    assert ParsePatterns(setting) == pieces;
  }

  /** Every piece of a split holds only characters of the split string. */
  lemma {:induction false} PieceOfSpaceless(s: string, i: int)
    requires forall j :: 0 <= j < |s| ==> !IsSpace(s[j])
    requires 0 <= i < |Split(s, ',')|
    ensures forall j :: 0 <= j < |Split(s, ',')[i]| ==> !IsSpace(Split(s, ',')[i][j])
  {
    if s != [] {
      var rest := Split(s[1..], ',');
      if s[0] == ',' {
        if i > 0 {
          PieceOfSpaceless(s[1..], i - 1);
        }
      } else if i == 0 {
        PieceOfSpaceless(s[1..], 0);
        assert Split(s, ',')[0] == [s[0]] + rest[0];
      } else {
        PieceOfSpaceless(s[1..], i);
      }
    }
  }

  /** The branch name with every occurrence of `refs/heads/` removed. */
  function Refless(branch: string): string {
    Replace(branch, HeadsPrefix, "")
  }

  /**
   * Every occurrence of `refs/heads/` is removed, not only the leading one:
   * `refs/heads/<x>refs/heads/<y>` loses both.
   */
  lemma ReflessRemovesEvery(x: string, y: string)
    requires !Occurs(HeadsPrefix, x) && !Occurs(HeadsPrefix, y)
    ensures Refless(HeadsPrefix + x + HeadsPrefix + y) == x + y
  {
    var s := x + HeadsPrefix + y;
    NoPrefixStartsBefore(x, y);
    ReplaceSplice(x, HeadsPrefix, y, "");
    ReplaceAbsent(y, HeadsPrefix, "");
    assert HeadsPrefix + x + HeadsPrefix + y == [] + HeadsPrefix + s;
    ReplaceSplice([], HeadsPrefix, s, "");
  }

  /** `refs/heads/` cannot start inside a name that does not contain it and run into a following `refs/heads/`. */
  lemma NoPrefixStartsBefore(x: string, y: string)
    requires !Occurs(HeadsPrefix, x)
    ensures forall i :: 0 <= i < |x| ==> !OccursAt(HeadsPrefix, x + HeadsPrefix + y, i)
  {
    var s := x + HeadsPrefix + y;
    forall i | 0 <= i < |x| ensures !OccursAt(HeadsPrefix, s, i) {
      if i + |HeadsPrefix| <= |x| {
        assert s[i..i + |HeadsPrefix|] == x[i..i + |HeadsPrefix|];
        assert !OccursAt(HeadsPrefix, x, i);
      } else {
        PrefixStartsOnce(|x| - i);
        assert s[i..i + |HeadsPrefix|][|x| - i] == s[|x|] == 'r';
      }
    }
  }

  /** `r` occurs in `refs/heads/` only at its start. */
  lemma PrefixStartsOnce(j: int)
    requires 1 <= j < |HeadsPrefix|
    ensures HeadsPrefix[j] != 'r'
  {
  }

  /** A pattern selects a branch through its full or its shortened name. */
  predicate Wanted(branch: string, pattern: string) {
    Glob.Matches(branch, pattern) || Glob.Matches(Refless(branch), pattern)
  }

  /** One copy of `branch` for every pattern that selects it, in pattern order. */
  function Copies(branch: string, patterns: seq<string>): (r: seq<string>)
    ensures |r| <= |patterns|
  {
    if patterns == [] then []
    else
      var last := patterns[|patterns| - 1];
      Copies(branch, patterns[..|patterns| - 1]) + (if Wanted(branch, last) then [branch] else [])
  }

  /** Copies hold nothing but the branch. */
  lemma {:induction false} CopiesOnlyBranch(branch: string, patterns: seq<string>)
    ensures forall x :: x in Copies(branch, patterns) ==> x == branch
  {
    if patterns != [] {
      CopiesOnlyBranch(branch, patterns[..|patterns| - 1]);
    }
  }

  /** The selection: branches in enumeration order, each with its copies. */
  function Selected(branches: seq<string>, patterns: seq<string>): seq<string> {
    if branches == [] then []
    else
      var last := branches[|branches| - 1];
      Selected(branches[..|branches| - 1], patterns) + Copies(last, patterns)
  }

  /** The selection loop over the branches. */
  method SelectRefs(refNames: seq<string>, patterns: seq<string>) returns (selected: seq<string>)
    ensures selected == Selected(HeadBranches(refNames), patterns)
  {
    var branches := HeadBranches(refNames);
    selected := [];
    var i := 0;
    while i < |branches|
      invariant 0 <= i <= |branches|
      invariant selected == Selected(branches[..i], patterns)
    {
      assert branches[..i + 1] == branches[..i] + [branches[i]];
      SelectedSnoc(branches[..i], branches[i], patterns);
      selected := AppendCopies(selected, branches[i], patterns);
      i := i + 1;
    }
    assert branches[..i] == branches;
  }

  /** The loop over the patterns for one branch: append it once per pattern that wants it. */
  method AppendCopies(selected: seq<string>, b: string, patterns: seq<string>) returns (r: seq<string>)
    ensures r == selected + Copies(b, patterns)
  {
    r := selected;
    var j := 0;
    while j < |patterns|
      invariant 0 <= j <= |patterns|
      invariant r == selected + Copies(b, patterns[..j])
    {
      var d := patterns[j];
      var refless := Replace(b, HeadsPrefix, "");
      assert patterns[..j + 1] == patterns[..j] + [d];
      CopiesSnoc(b, patterns[..j], d);
      if Glob.Matches(b, d) || Glob.Matches(refless, d) {
        r := r + [b];
      }
      j := j + 1;
    }
    assert patterns[..j] == patterns;
  }

  lemma CopiesSnoc(branch: string, patterns: seq<string>, d: string)
    ensures Copies(branch, patterns + [d])
         == Copies(branch, patterns) + (if Wanted(branch, d) then [branch] else [])
  {
    assert (patterns + [d])[..|patterns|] == patterns;
  }

  /** A ref is selected exactly when it is a listed branch that some pattern wants. */
  lemma {:induction false} SelectedMembership(branches: seq<string>, patterns: seq<string>, x: string)
    ensures x in Selected(branches, patterns) <==>
              x in branches && exists d :: d in patterns && Wanted(x, d)
  {
    if branches != [] {
      var init := branches[..|branches| - 1];
      var last := branches[|branches| - 1];
      SelectedMembership(init, patterns, x);
      assert branches == init + [last];
      var c := Copies(last, patterns);
      assert Selected(branches, patterns) == Selected(init, patterns) + c;
      CopiesNonEmpty(last, patterns);
      CopiesOnlyBranch(last, patterns);
      if x == last && exists d :: d in patterns && Wanted(x, d) {
        var d :| d in patterns && Wanted(x, d);
        assert Wanted(last, d);
        assert c != [];
        assert c[0] in c;
      }
    }
  }

  /**
   * A branch occurs in the selection once per occurrence in the input
   * times the number of patterns that want it.
   */
  lemma {:induction false} SelectedMultiplicity(branches: seq<string>, patterns: seq<string>, x: string)
    ensures multiset(Selected(branches, patterns))[x] == multiset(branches)[x] * |Copies(x, patterns)|
  {
    if branches != [] {
      var init := branches[..|branches| - 1];
      var last := branches[|branches| - 1];
      SelectedMultiplicity(init, patterns, x);
      SelectedCountStep(branches, patterns, x);
      var k := |Copies(x, patterns)|;
      var extra := if last == x then 1 else 0;
      MulStep(multiset(init)[x], k, extra);
    }
  }

  /** How the last candidate adds to the selection and to the candidates. */
  lemma SelectedCountStep(branches: seq<string>, patterns: seq<string>, x: string)
    requires branches != []
    ensures var init := branches[..|branches| - 1];
            var last := branches[|branches| - 1];
            var extra := if last == x then 1 else 0;
            multiset(Selected(branches, patterns))[x]
              == multiset(Selected(init, patterns))[x] + extra * |Copies(x, patterns)|
            && multiset(branches)[x] == multiset(init)[x] + extra
  {
    var init := branches[..|branches| - 1];
    var last := branches[|branches| - 1];
    var c := Copies(last, patterns);
    var sel := Selected(init, patterns);
    assert Selected(branches, patterns) == sel + c;
    assert multiset(sel + c) == multiset(sel) + multiset(c);
    assert branches == init + [last];
    assert multiset(branches) == multiset(init) + multiset([last]);
    if last == x {
      CopiesMultiset(last, patterns);
    } else {
      CopiesOnlyBranch(last, patterns);
      assert x !in c;
    }
  }

  /** Distributivity, kept out of the multiset contexts above. */
  lemma MulStep(m: int, k: int, e: int)
    ensures m * k + e * k == (m + e) * k
  {
  }

  /** A branch gets a copy exactly when some pattern wants it. */
  lemma {:induction false} CopiesNonEmpty(branch: string, patterns: seq<string>)
    ensures Copies(branch, patterns) != [] <==> exists d :: d in patterns && Wanted(branch, d)
  {
    if patterns != [] {
      var init := patterns[..|patterns| - 1];
      var last := patterns[|patterns| - 1];
      CopiesNonEmpty(branch, init);
      assert patterns == init + [last];
      if exists d :: d in patterns && Wanted(branch, d) {
        var d :| d in patterns && Wanted(branch, d);
        if d != last {
          assert d in init;
        }
      }
    }
  }

  lemma {:induction false} CopiesMultiset(branch: string, patterns: seq<string>)
    ensures multiset(Copies(branch, patterns))[branch] == |Copies(branch, patterns)|
  {
    if patterns != [] {
      CopiesMultiset(branch, patterns[..|patterns| - 1]);
    }
  }

  /** One more candidate adds its copies at the end. */
  lemma SelectedSnoc(branches: seq<string>, b: string, patterns: seq<string>)
    ensures Selected(branches + [b], patterns) == Selected(branches, patterns) + Copies(b, patterns)
  {
    assert (branches + [b])[..|branches|] == branches;
  }

  /** The selection keeps the order of the candidates. */
  lemma {:induction false} SelectedAppend(b1: seq<string>, b2: seq<string>, patterns: seq<string>)
    ensures Selected(b1 + b2, patterns) == Selected(b1, patterns) + Selected(b2, patterns)
    decreases |b2|
  {
    if b2 == [] {
      assert b1 + b2 == b1;
    } else {
      var init := b2[..|b2| - 1];
      var last := b2[|b2| - 1];
      SelectedAppend(b1, init, patterns);
      assert b2 == init + [last];
      assert b1 + b2 == (b1 + init) + [last];
      SelectedSnoc(b1 + init, last, patterns);
      SelectedSnoc(init, last, patterns);
      AppendAssoc(Selected(b1, patterns), Selected(init, patterns), Copies(last, patterns));
    }
  }

  /** `refs/heads/` is removed from a branch whose short name does not repeat it. */
  lemma ReflessOfBranch(name: string)
    requires !Occurs(HeadsPrefix, name)
    ensures Refless(HeadsPrefix + name) == name
  {
    var b := HeadsPrefix + name;
    assert b[..|HeadsPrefix|] == HeadsPrefix;
    assert b[|HeadsPrefix|..] == name;
    assert Refless(b) == "" + Replace(name, HeadsPrefix, "");
    ReplaceAbsent(name, HeadsPrefix, "");
  }

  /** Enumerated refs that are all branches are all candidates, in the same order. */
  lemma {:induction false} HeadBranchesOfBranches(refNames: seq<string>)
    requires forall r :: r in refNames ==> IsBranch(r)
    ensures HeadBranches(refNames) == refNames
  {
    if refNames != [] {
      HeadBranchesOfBranches(refNames[..|refNames| - 1]);
      assert refNames[..|refNames| - 1] + [refNames[|refNames| - 1]] == refNames;
    }
  }

  /**
   * A pattern `lit*` whose literal does not start the branch's full name
   * wants the branch exactly when the literal starts its short name.
   */
  lemma WantedByPrefixPattern(short: string, lit: string)
    requires Glob.IsLiteral(lit) && !Occurs(HeadsPrefix, short) && !(lit <= HeadsPrefix + short)
    ensures Wanted(HeadsPrefix + short, lit + "*") <==> lit <= short
  {
    ReflessOfBranch(short);
    Glob.PrefixMatch(HeadsPrefix + short, lit);
    Glob.PrefixMatch(short, lit);
  }

  /** Three candidates and one pattern that wants only the middle one. */
  lemma SelectMiddleOfThree(b1: string, b2: string, b3: string, p: string)
    requires !Wanted(b1, p) && Wanted(b2, p) && !Wanted(b3, p)
    ensures Selected([b1, b2, b3], [p]) == [b2]
  {
    var bs := [b1, b2, b3];
    assert [p][..0] == [];
    assert Copies(b1, [p]) == [] && Copies(b2, [p]) == [b2] && Copies(b3, [p]) == [];
    assert bs[..2] == [b1, b2] && [b1, b2][..1] == [b1] && [b1][..0] == [];
    assert Selected([b1], [p]) == [];
    assert Selected([b1, b2], [p]) == [b2];
  }

  /** `release-*` picks out `refs/heads/release-1` among master, release-1 and dev. */
  lemma ReleasePatternExample()
    ensures Selected(HeadBranches(["refs/heads/master", "refs/heads/release-1", "refs/heads/dev"]), ["release-*"])
         == ["refs/heads/release-1"]
  {
    var refs := ["refs/heads/master", "refs/heads/release-1", "refs/heads/dev"];
    assert refs[0] == HeadsPrefix + "master";
    assert refs[1] == HeadsPrefix + "release-1";
    assert refs[2] == HeadsPrefix + "dev";
    assert IsBranch(refs[0]) && IsBranch(refs[1]) && IsBranch(refs[2]);
    HeadBranchesOfBranches(refs);
    ReleaseWanted();
    SelectMiddleOfThree(refs[0], refs[1], refs[2], "release-*");
  }

  lemma ReleaseWanted()
    ensures !Wanted(HeadsPrefix + "master", "release-*")
    ensures Wanted(HeadsPrefix + "release-1", "release-*")
    ensures !Wanted(HeadsPrefix + "dev", "release-*")
  {
    ShortNameHoldsNoPrefix("master");
    ShortNameHoldsNoPrefix("release-1");
    ShortNameHoldsNoPrefix("dev");
    WantedByRelease("master");
    WantedByRelease("release-1");
    WantedByRelease("dev");
    assert "release-" <= "release-1";
  }

  /**
   * `release-*` wants the branch `refs/heads/<short>`, for any short name
   * that does not repeat `refs/heads/`, exactly when the name starts with
   * `release-`.
   */
  lemma WantedByRelease(short: string)
    requires !Occurs(HeadsPrefix, short)
    ensures Wanted(HeadsPrefix + short, "release-*") <==> "release-" <= short
  {
    assert "release-*" == "release-" + "*";
    assert (HeadsPrefix + short)[2] == 'f';
    WantedByPrefixPattern(short, "release-");
  }

  /** A name shorter than `refs/heads/` cannot contain it. */
  lemma ShortNameHoldsNoPrefix(short: string)
    requires |short| < |HeadsPrefix|
    ensures !Occurs(HeadsPrefix, short)
  {
    forall i | OccursAt(HeadsPrefix, short, i) ensures false { }
  }

  /** A branch wanted by two patterns is selected twice. */
  lemma DuplicateSelectionExample()
    ensures Selected(["refs/heads/master"], ["master", "*"]) == ["refs/heads/master", "refs/heads/master"]
  {
    var b := "refs/heads/master";
    assert b == HeadsPrefix + "master";
    ShortNameHoldsNoPrefix("master");
    ReflessOfBranch("master");
    Glob.LiteralMatch("master", "master");
    Glob.StarMatchesAll(b);
    SelectOneBranch(b, "master", "*");
  }

  /** A single branch wanted by both of two patterns. */
  lemma SelectOneBranch(b: string, p1: string, p2: string)
    requires Wanted(b, p1) && Wanted(b, p2)
    ensures Selected([b], [p1, p2]) == [b, b]
  {
    var pats := [p1, p2];
    assert pats[..1] == [p1] && [p1][..0] == [];
    assert Copies(b, [p1]) == Copies(b, []) + [b];
    assert Copies(b, pats) == Copies(b, [p1]) + [b];
    assert [b][..0] == [];
    assert Selected([b], pats) == Selected([], pats) + Copies(b, pats);
  }
}
