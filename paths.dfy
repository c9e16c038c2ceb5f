/**
 * The string and path helpers the report relies on: `str.endswith`, `str.replace`,
 * and POSIX `os.path.basename` / `os.path.join`, on strings as sequences of characters.
 */
module Paths {

  /** `s.endswith(suffix)` */
  predicate EndsWith(s: string, suffix: string)
  {
    |suffix| <= |s| && s[|s| - |suffix|..] == suffix
  }

  /** `pat` occurs in `s` starting at index `i`. */
  predicate OccursAt(s: string, pat: string, i: nat)
  {
    i + |pat| <= |s| && s[i..i + |pat|] == pat
  }

  /** POSIX `os.path.basename`: the part of `p` after its last '/', or all of `p` when it has none. */
  function Basename(p: string): (r: string)
    ensures '/' !in r
    ensures EndsWith(p, r)
    ensures |r| < |p| ==> p[|p| - |r| - 1] == '/'
  {
    if p == [] || p[|p| - 1] == '/' then []
    else
      var r := Basename(p[..|p| - 1]) + [p[|p| - 1]];
      assert p[|p| - |r|..] == p[..|p| - 1][|p| - |r|..] + [p[|p| - 1]];
      r
  }

  /** A string without '/' is its own basename. */
  lemma {:induction false} BasenameOfPlainName(s: string)
    requires '/' !in s
    ensures Basename(s) == s
  {
    if s != [] {
      BasenameOfPlainName(s[..|s| - 1]);
      assert s == s[..|s| - 1] + [s[|s| - 1]];
    }
  }

  /** Taking the basename twice changes nothing more. */
  lemma BasenameIdempotent(p: string)
    ensures Basename(Basename(p)) == Basename(p)
  {
    BasenameOfPlainName(Basename(p));
  }

  /** A path whose name ends in `suffix` ('/'-free) has a basename ending in `suffix` too. */
  lemma BasenameKeepsSuffix(p: string, suffix: string)
    requires '/' !in suffix
    requires EndsWith(p, suffix)
    ensures EndsWith(Basename(p), suffix)
  {
    var r := Basename(p);
    assert r[|r| - |suffix|..] == p[|p| - |suffix|..];
  }

  /**
   * POSIX `os.path.join(a, b)`: an absolute `b` replaces `a`; otherwise `b` is appended,
   * with a '/' in between unless `a` is empty or already ends in one.
   */
  function Join(a: string, b: string): (r: string)
    ensures EndsWith(r, b)
    ensures (b == [] || b[0] != '/') ==> r == a + b || r == a + "/" + b
    ensures (a == [] || a[|a| - 1] != '/') && (b == [] || b[0] != '/') && a != [] ==> r == a + "/" + b
  {
    if b != [] && b[0] == '/' then b
    else if a == [] || a[|a| - 1] == '/' then a + b
    else a + "/" + b
  }

  /** Joining three relative parts, none with a '/' at the seam, puts exactly one '/' between each. */
  lemma JoinThree(a: string, b: string, c: string)
    requires a != [] && a[|a| - 1] != '/'
    requires b != [] && b[0] != '/' && b[|b| - 1] != '/'
    requires c == [] || c[0] != '/'
    ensures Join(Join(a, b), c) == a + "/" + b + "/" + c
  {
    var ab := a + "/" + b;
    assert Join(a, b) == ab;
    assert ab[|ab| - 1] == b[|b| - 1];
  }

  /**
   * `s.replace(pat, rep)`: scanning from the left, every occurrence of `pat` that does not
   * overlap an earlier replaced one becomes `rep`.
   */
  function ReplaceAll(s: string, pat: string, rep: string): string
    requires pat != []
    decreases |s|
  {
    if |s| < |pat| then s
    else if s[..|pat|] == pat then rep + ReplaceAll(s[|pat|..], pat, rep)
    else [s[0]] + ReplaceAll(s[1..], pat, rep)
  }

  /** Replacing a pattern that does not occur changes nothing. */
  lemma {:induction false} ReplaceAbsent(s: string, pat: string, rep: string)
    requires pat != []
    requires forall i :: 0 <= i < |s| ==> !OccursAt(s, pat, i)
    ensures ReplaceAll(s, pat, rep) == s
    decreases |s|
  {
    if |s| >= |pat| {
      assert !OccursAt(s, pat, 0);
      forall i | 0 <= i < |s[1..]| ensures !OccursAt(s[1..], pat, i) {
        OccursAtTail(s, pat, i);
      }
      ReplaceAbsent(s[1..], pat, rep);
      assert s == [s[0]] + s[1..];
    }
  }

  /** Replacing one character by another maps the string character by character. */
  lemma {:induction false} ReplaceChar(s: string, c: char, d: char)
    ensures |ReplaceAll(s, [c], [d])| == |s|
    ensures forall i :: 0 <= i < |s| ==> ReplaceAll(s, [c], [d])[i] == if s[i] == c then d else s[i]
    decreases |s|
  {
    if s != [] {
      ReplaceChar(s[1..], c, d);
      var tail := ReplaceAll(s[1..], [c], [d]);
      assert ReplaceAll(s, [c], [d]) == [if s[0] == c then d else s[0]] + tail by {
        assert s[..1] == [s[0]];
      }
    }
  }

  /** Dropping the first character shifts every occurrence one place to the left. */
  lemma OccursAtTail(s: string, pat: string, i: nat)
    requires s != []
    ensures OccursAt(s[1..], pat, i) <==> OccursAt(s, pat, i + 1)
  {
    if i + |pat| <= |s| - 1 {
      assert s[1..][i..i + |pat|] == s[i + 1..i + 1 + |pat|];
    }
  }

  /**
   * When the only occurrence of `pat` in `stem + pat` is the final one, replacing
   * rewrites just that suffix.
   */
  lemma {:induction false} ReplaceFinalOccurrence(stem: string, pat: string, rep: string)
    requires pat != []
    requires forall i :: 0 <= i < |stem| ==> !OccursAt(stem + pat, pat, i)
    ensures ReplaceAll(stem + pat, pat, rep) == stem + rep
  {
    var s := stem + pat;
    if stem == [] {
      assert s[..|pat|] == pat;
      assert s[|pat|..] == [];
    } else {
      var tail := stem[1..];
      assert s[1..] == tail + pat;
      assert !OccursAt(s, pat, 0);
      forall i | 0 <= i < |tail| ensures !OccursAt(tail + pat, pat, i) {
        OccursAtTail(s, pat, i);
      }
      ReplaceFinalOccurrence(tail, pat, rep);
      assert ReplaceAll(s, pat, rep) == [s[0]] + ReplaceAll(s[1..], pat, rep);
      assert stem == [stem[0]] + tail;
    }
  }
}
