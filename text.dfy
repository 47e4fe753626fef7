/** The few methods of Python's `str` that the script uses (`in`, `endswith`, `replace`,
    `split`, `lower`), over strings as sequences of characters. */
module Text {

  /** `pat` occurs in `s` starting at index `i`. */
  predicate OccursAt(s: string, pat: string, i: int)
  {
    0 <= i && i + |pat| <= |s| && s[i..i + |pat|] == pat
  }

  /** Python's `pat in s`: a substring test. */
  predicate Contains(s: string, pat: string)
    ensures Contains(s, pat) ==> |pat| <= |s|
    decreases |s|
  {
    pat <= s || (s != [] && Contains(s[1..], pat))
  }

  /** An occurrence found anywhere makes `Contains` hold. */
  lemma {:induction false} OccursContains(s: string, pat: string, i: int)
    requires OccursAt(s, pat, i)
    ensures Contains(s, pat)
    decreases i
  {
    if i == 0 {
      assert s[..|pat|] == pat;
    } else {
      assert s[1..][i - 1..i - 1 + |pat|] == s[i..i + |pat|];
      OccursContains(s[1..], pat, i - 1);
    }
  }

  /** `Contains` holds exactly when there is a position where `pat` occurs. */
  lemma {:induction false} ContainsIff(s: string, pat: string)
    ensures Contains(s, pat) <==> exists i :: OccursAt(s, pat, i)
    decreases |s|
  {
    if pat <= s {
      assert OccursAt(s, pat, 0);
    } else if s != [] && Contains(s[1..], pat) {
      ContainsIff(s[1..], pat);
      var i :| OccursAt(s[1..], pat, i);
      assert s[1..][i..i + |pat|] == s[i + 1..i + 1 + |pat|];
      assert OccursAt(s, pat, i + 1);
    }
    forall i | OccursAt(s, pat, i)
      ensures Contains(s, pat)
    {
      OccursContains(s, pat, i);
    }
  }

  /** A key that holds `c` can only occur in a string that holds `c`. */
  lemma ContainsKeeps(s: string, key: string, c: char)
    requires Contains(s, key) && c in key
    ensures c in s
  {
    ContainsIff(s, key);
    var i :| OccursAt(s, key, i);
    var k :| 0 <= k < |key| && key[k] == c;
    assert s[i..i + |key|][k] == c;
  }

  /** A pattern whose first character is missing from `s` does not occur in `s`. */
  lemma {:induction false} AbsentFirstChar(s: string, pat: string)
    requires pat != [] && pat[0] !in s
    ensures !Contains(s, pat)
    decreases |s|
  {
    if s != [] {
      assert s[0] in s;
      AbsentFirstChar(s[1..], pat);
    }
  }

  /** Python's `s.endswith(suffix)`: `s` is some string followed by `suffix`. */
  predicate EndsWith(s: string, suffix: string)
    ensures EndsWith(s, suffix) <==> exists u :: s == u + suffix
  {
    assert |suffix| <= |s| ==> s == s[..|s| - |suffix|] + s[|s| - |suffix|..];
    |suffix| <= |s| && s[|s| - |suffix|..] == suffix
  }

  predicate IsUpper(c: char)
  {
    'A' <= c <= 'Z'
  }

  /** Lower-casing of one character, for the ASCII letters. */
  function LowerChar(c: char): (d: char)
    ensures !IsUpper(d)
    ensures IsUpper(c) ==> d as int - c as int == 'a' as int - 'A' as int
    ensures !IsUpper(c) ==> d == c
  {
    if IsUpper(c) then (c as int - 'A' as int + 'a' as int) as char else c
  }

  /** Python's `s.lower()` restricted to ASCII letters: every character is kept in place,
      and no upper-case ASCII letter remains. */
  function Lower(s: string): (r: string)
    ensures |r| == |s|
    ensures forall i :: 0 <= i < |s| ==> r[i] == LowerChar(s[i])
    ensures forall i :: 0 <= i < |r| ==> !IsUpper(r[i])
  {
    seq(|s|, i requires 0 <= i < |s| => LowerChar(s[i]))
  }

  /** Python's `s.replace(pat, rep)` for a non-empty `pat`: one left-to-right pass that
      replaces each non-overlapping occurrence of `pat` by `rep`; the text produced by a
      replacement is never scanned again. */
  function ReplaceAll(s: string, pat: string, rep: string): (r: string)
    requires pat != []
    ensures |rep| <= |pat| ==> |r| <= |s|
    ensures |rep| == |pat| ==> |r| == |s|
    decreases |s|
  {
    if s == [] then []
    else if pat <= s then rep + ReplaceAll(s[|pat|..], pat, rep)
    else [s[0]] + ReplaceAll(s[1..], pat, rep)
  }

  /** A string in which `pat` does not occur is left unchanged. */
  lemma {:induction false} ReplaceAbsent(s: string, pat: string, rep: string)
    requires pat != [] && !Contains(s, pat)
    ensures ReplaceAll(s, pat, rep) == s
    decreases |s|
  {
    if s != [] {
      ReplaceAbsent(s[1..], pat, rep);
    }
  }

  /** Replacing one character by another maps the string character by character. */
  lemma {:induction false} ReplaceCharAt(s: string, c: char, d: char)
    ensures |ReplaceAll(s, [c], [d])| == |s|
    ensures forall i :: 0 <= i < |s| ==> ReplaceAll(s, [c], [d])[i] == if s[i] == c then d else s[i]
    decreases |s|
  {
    if s != [] {
      ReplaceCharAt(s[1..], c, d);
      assert [c] <= s <==> s[0] == c;
    }
  }

  /** The first character of `pat` occurs only at its start, as in `.csv`. Such a pattern
      cannot overlap a copy of itself. */
  predicate HeadUnique(pat: string)
  {
    pat != [] && forall k :: 0 < k < |pat| ==> pat[k] != pat[0]
  }

  /** A match at the head of `u + pat + v`, with `u` non-empty, lies inside `u`. */
  lemma MatchInside(u: string, v: string, pat: string)
    requires HeadUnique(pat) && u != [] && pat <= u + pat + v
    ensures pat <= u
  {
    var s := u + pat + v;
    assert s[|u|] == pat[0];
    assert forall k :: 0 <= k < |pat| ==> s[k] == pat[k];
    assert |pat| <= |u|;
    assert u[..|pat|] == s[..|pat|];
  }

  /** For a pattern whose first character occurs only at its start, every occurrence of it is replaced, wherever
      it stands: an occurrence splits the string into two halves that are rewritten apart. */
  lemma {:induction false} ReplaceAcross(u: string, v: string, pat: string, rep: string)
    requires HeadUnique(pat)
    ensures ReplaceAll(u + pat + v, pat, rep) == ReplaceAll(u, pat, rep) + rep + ReplaceAll(v, pat, rep)
    decreases |u|
  {
    var s := u + pat + v;
    if u == [] {
      assert s == pat + v;
      assert s[|pat|..] == v;
    } else if pat <= s {
      MatchInside(u, v, pat);
      ReplaceAcross(u[|pat|..], v, pat, rep);
      MatchStep(u, v, pat, rep);
    } else {
      ReplaceAcross(u[1..], v, pat, rep);
      SkipStep(u, v, pat, rep);
    }
  }

  /** The step of `ReplaceAcross` when an occurrence starts the string. */
  lemma MatchStep(u: string, v: string, pat: string, rep: string)
    requires pat != [] && pat <= u
    requires ReplaceAll(u[|pat|..] + pat + v, pat, rep)
               == ReplaceAll(u[|pat|..], pat, rep) + rep + ReplaceAll(v, pat, rep)
    ensures ReplaceAll(u + pat + v, pat, rep) == ReplaceAll(u, pat, rep) + rep + ReplaceAll(v, pat, rep)
  {
    var s := u + pat + v;
    var u' := u[|pat|..];
    var a, b := ReplaceAll(u', pat, rep), ReplaceAll(v, pat, rep);
    AppendAssoc(u, pat, v);
    PrefixGrows(pat, u, pat + v);
    DropAppend(u, pat + v, |pat|);
    AppendAssoc(u', pat, v);
    AppendAssoc(rep, a + rep, b);
    AppendAssoc(rep, a, rep);
  }

  /** The step of `ReplaceAcross` when no occurrence starts the string. */
  lemma SkipStep(u: string, v: string, pat: string, rep: string)
    requires pat != [] && u != [] && !(pat <= u + pat + v)
    requires ReplaceAll(u[1..] + pat + v, pat, rep) == ReplaceAll(u[1..], pat, rep) + rep + ReplaceAll(v, pat, rep)
    ensures ReplaceAll(u + pat + v, pat, rep) == ReplaceAll(u, pat, rep) + rep + ReplaceAll(v, pat, rep)
  {
    var s := u + pat + v;
    var a, b := ReplaceAll(u[1..], pat, rep), ReplaceAll(v, pat, rep);
    AppendAssoc(u, pat, v);
    PrefixGrows(pat, u, pat + v);
    DropAppend(u, pat + v, 1);
    AppendAssoc(u[1..], pat, v);
    AppendAssoc([u[0]], a + rep, b);
    AppendAssoc([u[0]], a, rep);
  }

  lemma AppendAssoc(a: string, b: string, c: string)
    ensures a + (b + c) == a + b + c
  {
  }

  lemma DropAppend(a: string, b: string, n: nat)
    requires n <= |a|
    ensures (a + b)[n..] == a[n..] + b
  {
  }

  /** A prefix of a string is a prefix of every extension of it. */
  lemma PrefixGrows(pat: string, u: string, w: string)
    ensures pat <= u ==> pat <= u + w
  {
    if pat <= u {
      assert forall k :: 0 <= k < |pat| ==> (u + w)[k] == pat[k];
    }
  }

  /** Python's `s.split(sep)` with a one-character separator: the pieces between the
      separators, in order, empty pieces included, at least one piece. */
  function Split(s: string, sep: char): (parts: seq<string>)
    ensures |parts| >= 1
    ensures forall i :: 0 <= i < |parts| ==> sep !in parts[i]
    ensures (|parts| == 1) == (sep !in s)
    ensures parts[0] <= s && (|parts[0]| == |s| || s[|parts[0]|] == sep)
    decreases |s|
  {
    if s == [] then [[]]
    else
      var rest := Split(s[1..], sep);
      if s[0] == sep then [[]] + rest
      else [[s[0]] + rest[0]] + rest[1..]
  }

  /** The inverse of `Split`: the pieces with the separator put back between them. */
  function Join(parts: seq<string>, sep: char): string
    requires |parts| >= 1
  {
    if |parts| == 1 then parts[0] else parts[0] + [sep] + Join(parts[1..], sep)
  }

  /** Splitting and joining again gives back the original string. */
  lemma {:induction false} JoinSplit(s: string, sep: char)
    ensures Join(Split(s, sep), sep) == s
    decreases |s|
  {
    if s != [] {
      var rest := Split(s[1..], sep);
      JoinSplit(s[1..], sep);
      if s[0] != sep && |rest| > 1 {
        assert rest == [rest[0]] + rest[1..];
        assert Join(rest, sep) == rest[0] + [sep] + Join(rest[1..], sep);
      }
    }
  }

  /** A string without the separator splits into itself alone. */
  lemma {:induction false} SplitNone(a: string, sep: char)
    requires sep !in a
    ensures Split(a, sep) == [a]
    decreases |a|
  {
    if a != [] {
      SplitNone(a[1..], sep);
      assert [a[0]] + a[1..] == a;
    }
  }

  /** The first separator ends the first piece; the rest is split on its own. */
  lemma {:induction false} SplitFirst(a: string, b: string, sep: char)
    requires sep !in a
    ensures Split(a + [sep] + b, sep) == [a] + Split(b, sep)
    decreases |a|
  {
    var s := a + [sep] + b;
    if a == [] {
      assert s == [sep] + b;
      assert s[1..] == b;
    } else {
      assert s[0] == a[0] != sep;
      AppendAssoc(a, [sep], b);
      DropAppend(a, [sep] + b, 1);
      AppendAssoc(a[1..], [sep], b);
      SplitFirst(a[1..], b, sep);
      var rest := Split(s[1..], sep);
      assert rest[0] == a[1..] && rest[1..] == Split(b, sep);
      assert [a[0]] + a[1..] == a;
    }
  }

  /** The first separator, at k, splits off the first piece. */
  lemma SplitAt(s: string, k: nat, sep: char)
    requires k < |s| && s[k] == sep && sep !in s[..k]
    ensures |Split(s, sep)| >= 2
    ensures Split(s, sep)[1] == Split(s[k + 1..], sep)[0]
  {
    assert s[..k] + [sep] + s[k + 1..] == s;
    SplitFirst(s[..k], s[k + 1..], sep);
  }

  /** Splitting undoes joining whenever no piece holds the separator. */
  lemma {:induction false} SplitJoin(parts: seq<string>, sep: char)
    requires |parts| >= 1
    requires forall i :: 0 <= i < |parts| ==> sep !in parts[i]
    ensures Split(Join(parts, sep), sep) == parts
    decreases |parts|
  {
    if |parts| == 1 {
      SplitNone(parts[0], sep);
    } else {
      SplitJoin(parts[1..], sep);
      SplitFirst(parts[0], Join(parts[1..], sep), sep);
      assert [parts[0]] + parts[1..] == parts;
    }
  }

  /** The position of the first `c` in `s`; it locates the first '=' of a connection-string
      part, where `split('=')[1]` begins. */
  function IndexOf(s: string, c: char): (k: nat)
    requires c in s
    ensures k < |s| && s[k] == c && c !in s[..k]
    ensures forall j :: 0 <= j < k ==> s[j] != c
  {
    if s[0] == c then 0
    else
      var k := 1 + IndexOf(s[1..], c);
      assert s[..k] == [s[0]] + s[1..][..k - 1];
      k
  }
}
