/**
 * Shell-style pattern matching as `fnmatch` does it for branch patterns:
 * `*` matches any run of characters, `?` any single character, and every
 * other character itself. Case is significant (POSIX `normcase` is the
 * identity).
 */
module Glob {

  /** `pat` matches the whole of `name`. */
  predicate Matches(name: string, pat: string)
    decreases |name| + |pat|
  {
    if pat == [] then name == []
    else if pat[0] == '*' then
      Matches(name, pat[1..]) || (name != [] && Matches(name[1..], pat))
    else
      name != [] && (pat[0] == '?' || pat[0] == name[0]) && Matches(name[1..], pat[1..])
  }

  /** `pat` holds no character that `fnmatch` treats specially. */
  predicate IsLiteral(pat: string) {
    '*' !in pat && '?' !in pat && '[' !in pat
  }

  /** A pattern without wildcards matches exactly the string it spells. */
  lemma {:induction false} LiteralMatch(name: string, pat: string)
    requires IsLiteral(pat)
    ensures Matches(name, pat) <==> name == pat
  {
    if pat != [] && name != [] {
      LiteralMatch(name[1..], pat[1..]);
      assert name == [name[0]] + name[1..];
      assert pat == [pat[0]] + pat[1..];
    }
  }

  /** A lone `*` matches every name. */
  lemma {:induction false} StarMatchesAll(name: string)
    ensures Matches(name, "*")
  {
    if name != [] {
      StarMatchesAll(name[1..]);
    }
  }

  /** A literal followed by `*` matches exactly the names that start with the literal. */
  lemma {:induction false} PrefixMatch(name: string, lit: string)
    requires IsLiteral(lit)
    ensures Matches(name, lit + "*") <==> lit <= name
  {
    if lit == [] {
      assert lit + "*" == "*";
      StarMatchesAll(name);
    } else if name != [] {
      PrefixMatch(name[1..], lit[1..]);
      assert (lit + "*")[1..] == lit[1..] + "*";
    }
  }
}
