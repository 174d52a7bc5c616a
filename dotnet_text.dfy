/**
 * The .NET string and char operations the Blogger service relies on,
 * over strings as sequences of Unicode scalar values.
 */
module DotNetText {
  import opened Wrappers

  /** char.IsWhiteSpace: the Unicode separators and the control characters .NET treats as white space. */
  predicate IsWhiteSpace(c: char) {
    ('\t' <= c <= '\r') || c == ' ' || c == '\U{0085}' || c == '\U{00A0}' || c == '\U{1680}'
    || ('\U{2000}' <= c <= '\U{200A}') || c == '\U{2028}' || c == '\U{2029}' || c == '\U{202F}'
    || c == '\U{205F}' || c == '\U{3000}'
  }

  /** Every character of s is white space (so the empty string is blank). */
  predicate IsBlank(s: string) {
    forall i :: 0 <= i < |s| ==> IsWhiteSpace(s[i])
  }

  /** string.IsNullOrWhiteSpace; None stands for null. */
  predicate IsNullOrWhiteSpace(s: Option<string>) {
    match s
    case None => true
    case Some(v) => IsBlank(v)
  }

  /** pat occurs in s starting at index i. */
  ghost predicate OccursAt(pat: string, s: string, i: int) {
    0 <= i && i + |pat| <= |s| && s[i..i + |pat|] == pat
  }

  ghost predicate Occurs(pat: string, s: string) {
    exists i :: OccursAt(pat, s, i)
  }

  /**
   * string.Replace(oldValue, newValue), which compares ordinally: s is scanned
   * from left to right and every non-overlapping occurrence of pat is replaced
   * by rep; the inserted text is not scanned again. .NET rejects an empty
   * oldValue, hence the precondition.
   */
  function Replace(s: string, pat: string, rep: string): string
    requires pat != []
    decreases |s|
  {
    if |s| < |pat| then s
    else if s[..|pat|] == pat then rep + Replace(s[|pat|..], pat, rep)
    else [s[0]] + Replace(s[1..], pat, rep)
  }

  /** Replace never shortens s when rep is at least as long as pat, and never lengthens it when rep is at most as long. */
  lemma {:induction false} ReplaceLength(s: string, pat: string, rep: string)
    requires pat != []
    ensures |rep| >= |pat| ==> |Replace(s, pat, rep)| >= |s|
    ensures |rep| <= |pat| ==> |Replace(s, pat, rep)| <= |s|
    decreases |s|
  {
    if |s| < |pat| {
    } else if s[..|pat|] == pat {
      ReplaceLength(s[|pat|..], pat, rep);
    } else {
      ReplaceLength(s[1..], pat, rep);
    }
  }

  /** When pat does not start s, it occurs in s exactly when it occurs in s[1..]. */
  lemma OccursTail(s: string, pat: string)
    requires |pat| <= |s| && s[..|pat|] != pat
    ensures Occurs(pat, s) <==> Occurs(pat, s[1..])
  {
    if Occurs(pat, s) {
      var i :| OccursAt(pat, s, i);
      assert i != 0;
      assert s[1..][i - 1..i - 1 + |pat|] == s[i..i + |pat|];
      assert OccursAt(pat, s[1..], i - 1);
    }
    if Occurs(pat, s[1..]) {
      var i :| OccursAt(pat, s[1..], i);
      assert s[i + 1..i + 1 + |pat|] == s[1..][i..i + |pat|];
      assert OccursAt(pat, s, i + 1);
    }
  }

  /** Replace leaves s as it is exactly when pat does not occur in it or is replaced by itself. */
  lemma {:induction false} ReplaceUnchanged(s: string, pat: string, rep: string)
    requires pat != []
    ensures Replace(s, pat, rep) == s <==> !Occurs(pat, s) || rep == pat
    decreases |s|
  {
    if |s| < |pat| {
      assert forall i :: !OccursAt(pat, s, i);
    } else if s[..|pat|] == pat {
      var rest := s[|pat|..];
      assert OccursAt(pat, s, 0);
      assert s == pat + rest;
      ReplaceUnchanged(rest, pat, rep);
      ReplaceLength(rest, pat, rep);
      if |rep| == |pat| && rep != pat {
        assert Replace(s, pat, rep)[..|pat|] == rep;
      }
    } else {
      OccursTail(s, pat);
      ReplaceUnchanged(s[1..], pat, rep);
      assert s == [s[0]] + s[1..];
    }
  }

  /** Every character of the result comes from s or from rep. */
  lemma {:induction false} ReplaceChars(s: string, pat: string, rep: string, c: char)
    requires pat != []
    requires c in Replace(s, pat, rep)
    ensures c in s || c in rep
    decreases |s|
  {
    if |s| < |pat| {
    } else if s[..|pat|] == pat {
      if c !in rep {
        ReplaceChars(s[|pat|..], pat, rep, c);
      }
    } else {
      if c != s[0] {
        ReplaceChars(s[1..], pat, rep, c);
      }
    }
  }

  /** With a one-character pattern, Replace works character by character. */
  lemma ReplaceCharCons(s: string, pat: string, rep: string)
    requires |pat| == 1 && s != []
    ensures Replace(s, pat, rep) == (if s[0] == pat[0] then rep else [s[0]]) + Replace(s[1..], pat, rep)
  {
    assert s[..1] == [s[0]];
  }

  /** With a one-character pattern, Replace distributes over concatenation. */
  lemma {:induction false} ReplaceCharAppend(a: string, b: string, pat: string, rep: string)
    requires |pat| == 1
    ensures Replace(a + b, pat, rep) == Replace(a, pat, rep) + Replace(b, pat, rep)
    decreases |a|
  {
    if a == [] {
      assert a + b == b;
    } else {
      ReplaceCharCons(a + b, pat, rep);
      ReplaceCharCons(a, pat, rep);
      assert (a + b)[1..] == a[1..] + b;
      ReplaceCharAppend(a[1..], b, pat, rep);
    }
  }

  /**
   * Replace works on the two parts of a + b separately when no occurrence of
   * pat starts in a and ends in b.
   */
  lemma {:induction false} ReplaceAppend(a: string, b: string, pat: string, rep: string)
    requires pat != []
    requires forall i :: 0 <= i < |a| < i + |pat| ==> !OccursAt(pat, a + b, i)
    ensures Replace(a + b, pat, rep) == Replace(a, pat, rep) + Replace(b, pat, rep)
    decreases |a|
  {
    if a == [] {
      assert a + b == b;
    } else if |a + b| < |pat| {
    } else if (a + b)[..|pat|] == pat {
      ReplaceAppendMatch(a, b, pat, rep);
    } else {
      ReplaceAppendSkip(a, b, pat, rep);
    }
  }

  /** ReplaceAppend when pat starts a + b: the occurrence lies within a. */
  lemma {:induction false} ReplaceAppendMatch(a: string, b: string, pat: string, rep: string)
    requires pat != [] && a != [] && |pat| <= |a + b| && (a + b)[..|pat|] == pat
    requires forall i :: 0 <= i < |a| < i + |pat| ==> !OccursAt(pat, a + b, i)
    ensures Replace(a + b, pat, rep) == Replace(a, pat, rep) + Replace(b, pat, rep)
    decreases |a|, 0
  {
    var s, k := a + b, |pat|;
    assert OccursAt(pat, s, 0);
    assert k <= |a|;
    assert a[..k] == s[..k];
    assert s[k..] == a[k..] + b;
    ReplaceAppendShift(a, b, pat, k);
    ReplaceAppend(a[k..], b, pat, rep);
  }

  /** ReplaceAppend when pat does not start a + b: the first character of a is kept. */
  lemma {:induction false} ReplaceAppendSkip(a: string, b: string, pat: string, rep: string)
    requires pat != [] && a != [] && |pat| <= |a + b| && (a + b)[..|pat|] != pat
    requires forall i :: 0 <= i < |a| < i + |pat| ==> !OccursAt(pat, a + b, i)
    ensures Replace(a + b, pat, rep) == Replace(a, pat, rep) + Replace(b, pat, rep)
    decreases |a|, 0
  {
    var s := a + b;
    if |a| >= |pat| {
      assert a[..|pat|] == s[..|pat|];
    }
    assert s[1..] == a[1..] + b;
    ReplaceAppendShift(a, b, pat, 1);
    ReplaceAppend(a[1..], b, pat, rep);
  }

  /** The boundary condition of ReplaceAppend carries over to a suffix of a. */
  lemma ReplaceAppendShift(a: string, b: string, pat: string, k: nat)
    requires k <= |a|
    requires forall i :: 0 <= i < |a| < i + |pat| ==> !OccursAt(pat, a + b, i)
    ensures forall i :: 0 <= i < |a[k..]| < i + |pat| ==> !OccursAt(pat, a[k..] + b, i)
  {
    forall i | 0 <= i < |a[k..]| < i + |pat| ensures !OccursAt(pat, a[k..] + b, i) {
      assert !OccursAt(pat, a + b, i + k);
      if i + |pat| <= |a[k..] + b| {
        assert (a[k..] + b)[i..i + |pat|] == (a + b)[i + k..i + k + |pat|];
      }
    }
  }

  /** Replacing one character by another changes exactly the positions that hold it. */
  lemma {:induction false} ReplaceCharByChar(s: string, c: char, d: char)
    ensures |Replace(s, [c], [d])| == |s|
    ensures forall i :: 0 <= i < |s| ==> Replace(s, [c], [d])[i] == if s[i] == c then d else s[i]
    decreases |s|
  {
    if s != [] {
      ReplaceCharCons(s, [c], [d]);
      ReplaceCharByChar(s[1..], c, d);
    }
  }

  /** Replacing a character by text that does not contain it leaves none of it behind. */
  lemma {:induction false} ReplaceRemovesChar(s: string, c: char, rep: string)
    requires c !in rep
    ensures c !in Replace(s, [c], rep)
    decreases |s|
  {
    if s != [] {
      ReplaceCharCons(s, [c], rep);
      ReplaceRemovesChar(s[1..], c, rep);
    }
  }

  /** Replacing the whole string by itself yields the replacement. */
  lemma ReplaceWhole(pat: string, rep: string)
    requires pat != []
    ensures Replace(pat, pat, rep) == rep
  {
    assert pat[..|pat|] == pat;
    assert pat[|pat|..] == [];
  }

  /** One occurrence of a character between two strings without it is the only thing replaced. */
  lemma ReplaceOneChar(a: string, b: string, c: char, rep: string)
    requires c !in a && c !in b
    ensures Replace(a + [c] + b, [c], rep) == a + rep + b
  {
    OccursChar(c, a);
    OccursChar(c, b);
    ReplaceUnchanged(a, [c], rep);
    ReplaceUnchanged(b, [c], rep);
    ReplaceCharAppend(a + [c], b, [c], rep);
    ReplaceCharAppend(a, [c], [c], rep);
    ReplaceCharCons([c], [c], rep);
  }

  lemma {:induction false} BlankAppend(a: string, b: string)
    ensures IsBlank(a + b) <==> IsBlank(a) && IsBlank(b)
  {
    if !IsBlank(a) {
      var i :| 0 <= i < |a| && !IsWhiteSpace(a[i]);
      assert (a + b)[i] == a[i];
    }
    if !IsBlank(b) {
      var i :| 0 <= i < |b| && !IsWhiteSpace(b[i]);
      assert (a + b)[|a| + i] == b[i];
    }
  }

  /** A one-character pattern occurs exactly where its character does. */
  lemma OccursChar(c: char, s: string)
    ensures Occurs([c], s) <==> c in s
  {
    if c in s {
      var i :| 0 <= i < |s| && s[i] == c;
      assert OccursAt([c], s, i);
    }
    if Occurs([c], s) {
      var i :| OccursAt([c], s, i);
      assert s[i..i + 1][0] == s[i];
    }
  }

  /** string.TrimStart(c): the string without its leading run of c. */
  function TrimStart(s: string, c: char): string
    decreases |s|
  {
    if s != [] && s[0] == c then TrimStart(s[1..], c) else s
  }

  /** TrimStart removes exactly the leading run of c: what it drops is all c and what it keeps does not start with c. */
  lemma {:induction false} TrimStartShape(s: string, c: char)
    ensures |TrimStart(s, c)| <= |s| && TrimStart(s, c) == s[|s| - |TrimStart(s, c)|..]
    ensures forall i :: 0 <= i < |s| - |TrimStart(s, c)| ==> s[i] == c
    ensures TrimStart(s, c) == [] || TrimStart(s, c)[0] != c
    decreases |s|
  {
    if s != [] && s[0] == c {
      TrimStartShape(s[1..], c);
    }
  }

  function ToLowerChar(c: char): char {
    if 'A' <= c <= 'Z' then (c as int - 'A' as int + 'a' as int) as char else c
  }

  /** string.ToLower, restricted to the ASCII letters. */
  function ToLower(s: string): string {
    if s == [] then [] else [ToLowerChar(s[0])] + ToLower(s[1..])
  }

  /** Lower-casing maps each character on its own and leaves no upper-case ASCII letter. */
  lemma {:induction false} ToLowerShape(s: string)
    ensures |ToLower(s)| == |s|
    ensures forall i :: 0 <= i < |s| ==> ToLower(s)[i] == ToLowerChar(s[i])
    ensures forall i :: 0 <= i < |s| ==> !('A' <= ToLower(s)[i] <= 'Z')
  {
    if s != [] {
      ToLowerShape(s[1..]);
      assert forall i :: 1 <= i < |s| ==> ToLower(s)[i] == ToLower(s[1..])[i - 1];
    }
  }

  /** Lower-casing works character by character, so it distributes over concatenation. */
  lemma ToLowerAppend(a: string, b: string)
    ensures ToLower(a + b) == ToLower(a) + ToLower(b)
  {
    var l, r := ToLower(a + b), ToLower(a) + ToLower(b);
    ToLowerShape(a + b);
    ToLowerShape(a);
    ToLowerShape(b);
    forall i | 0 <= i < |a + b| ensures l[i] == r[i] {
      if i < |a| {
        assert (a + b)[i] == a[i];
      } else {
        assert (a + b)[i] == b[i - |a|];
      }
    }
  }

  /** Only a space lower-cases to a space. */
  lemma ToLowerKeepsSpaces(s: string)
    ensures ' ' in ToLower(s) <==> ' ' in s
  {
    var r := ToLower(s);
    ToLowerShape(s);
    if ' ' in r {
      var i :| 0 <= i < |r| && r[i] == ' ';
      assert s[i] == ' ';
    }
    if ' ' in s {
      var i :| 0 <= i < |s| && s[i] == ' ';
      assert r[i] == ' ';
    }
  }
}
