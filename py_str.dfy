/** Python string and `posixpath` operations the capture code relies on:
    `str.replace`, `os.path.join` and `s.split("/")[-1]`. */
module PyStr {

  /** `pat` occurs in `s` starting at index `i`. */
  predicate OccursAt(s: string, pat: string, i: int)
  {
    0 <= i && i + |pat| <= |s| && s[i..i + |pat|] == pat
  }

  /** `pat` occurs nowhere in `s`. */
  predicate Absent(s: string, pat: string)
  {
    forall i :: 0 <= i < |s| ==> !OccursAt(s, pat, i)
  }

  /** An occurrence in the tail of `s` is an occurrence in `s` one
      position later. */
  lemma OccursShift(s: string, pat: string, i: int)
    requires s != [] && 0 <= i
    ensures OccursAt(s[1..], pat, i) <==> OccursAt(s, pat, i + 1)
  {
    if i + 1 + |pat| <= |s| {
      var inTail, inWhole := s[1..][i..i + |pat|], s[i + 1..i + 1 + |pat|];
      assert forall k :: 0 <= k < |pat| ==> inTail[k] == inWhole[k];
      assert inTail == inWhole;
    }
  }

  /** `s.replace(pat, rep)`: scans left to right and replaces every
      non-overlapping occurrence of `pat`; an empty `pat` inserts `rep`
      before every character and once more at the end. */
  function Replace(s: string, pat: string, rep: string): (r: string)
    ensures |pat| == |rep| ==> |r| == |s|
    decreases |s|
  {
    if pat == [] then
      if s == [] then rep else rep + [s[0]] + Replace(s[1..], pat, rep)
    else if |s| < |pat| then s
    else if s[..|pat|] == pat then rep + Replace(s[|pat|..], pat, rep)
    else [s[0]] + Replace(s[1..], pat, rep)
  }

  /** A string in which the pattern does not occur is left as it is. */
  lemma {:induction false} ReplaceAbsent(s: string, pat: string, rep: string)
    requires pat != [] && Absent(s, pat)
    ensures Replace(s, pat, rep) == s
    decreases |s|
  {
    if |s| >= |pat| {
      assert !OccursAt(s, pat, 0);
      forall i | 0 <= i < |s| - 1
        ensures !OccursAt(s[1..], pat, i)
      {
        OccursShift(s, pat, i);
      }
      ReplaceAbsent(s[1..], pat, rep);
    }
  }

  /** Replacing one character by another keeps the length and changes
      exactly the positions that held the replaced character. */
  lemma {:induction false} ReplaceChar(s: string, c: char, d: char)
    ensures |Replace(s, [c], [d])| == |s|
    ensures forall i :: 0 <= i < |s| ==> Replace(s, [c], [d])[i] == if s[i] == c then d else s[i]
  {
    if s != [] {
      ReplaceChar(s[1..], c, d);
      assert s[..1] == [s[0]];
      assert s[1..] == s[|[c]|..];
    }
  }

  /** When the first occurrence of `pat` in `p + pat` is the final one,
      `replace` rewrites exactly that suffix. */
  lemma {:induction false} ReplaceFinal(p: string, pat: string, rep: string)
    requires pat != []
    requires forall i :: 0 <= i < |p| ==> !OccursAt(p + pat, pat, i)
    ensures Replace(p + pat, pat, rep) == p + rep
  {
    var s := p + pat;
    if p == [] {
      assert s == pat && s[..|pat|] == pat && s[|pat|..] == [];
    } else {
      assert !OccursAt(s, pat, 0);
      assert s[..|pat|] != pat;
      assert s[1..] == p[1..] + pat;
      forall i | 0 <= i < |p[1..]|
        ensures !OccursAt(p[1..] + pat, pat, i)
      {
        OccursShift(s, pat, i);
      }
      ReplaceFinal(p[1..], pat, rep);
      assert [s[0]] + (p[1..] + rep) == p + rep;
    }
  }

  /** Replacing by a text at least as long never shortens the string. */
  lemma {:induction false} ReplaceNotShorter(s: string, pat: string, rep: string)
    requires 0 < |pat| <= |rep|
    ensures |Replace(s, pat, rep)| >= |s|
    decreases |s|
  {
    if |s| >= |pat| {
      if s[..|pat|] == pat {
        ReplaceNotShorter(s[|pat|..], pat, rep);
      } else {
        ReplaceNotShorter(s[1..], pat, rep);
      }
    }
  }

  /** Replacing by a strictly longer text lengthens any string in which
      the pattern occurs, so the result differs from the input. */
  lemma {:induction false} ReplaceLonger(s: string, pat: string, rep: string, i: int)
    requires 0 < |pat| < |rep|
    requires OccursAt(s, pat, i)
    ensures |Replace(s, pat, rep)| > |s|
    decreases |s|
  {
    if s[..|pat|] == pat {
      ReplaceNotShorter(s[|pat|..], pat, rep);
    } else {
      assert i != 0;
      OccursShift(s, pat, i - 1);
      ReplaceLonger(s[1..], pat, rep, i - 1);
    }
  }

  /** `posixpath.join(a, b)`: an absolute `b` wins; otherwise a separator
      is inserted unless `a` is empty or already ends with one. */
  function Join(a: string, b: string): (r: string)
    ensures |b| <= |r| <= |a| + 1 + |b|
  {
    if b != [] && b[0] == '/' then b
    else if a == [] || a[|a| - 1] == '/' then a + b
    else a + "/" + b
  }

  /** A relative name is appended to the folder, behind one separator
      unless the folder is empty or already ends with one; in every case
      the joined path ends with the name. */
  lemma JoinLayout(a: string, b: string)
    ensures b == [] || b[0] != '/' ==>
      Join(a, b) == if a == [] || a[|a| - 1] == '/' then a + b else a + "/" + b
    ensures Join(a, b)[|Join(a, b)| - |b|..] == b
  {
  }

  /** `s.split("/")[-1]`: the text after the last separator. */
  function LastSegment(s: string): (r: string)
    ensures |r| <= |s|
  {
    if s == [] then []
    else if s[|s| - 1] == '/' then []
    else LastSegment(s[..|s| - 1]) + [s[|s| - 1]]
  }

  /** The last segment is free of separators. */
  lemma {:induction false} LastSegmentNoSeparator(s: string)
    ensures '/' !in LastSegment(s)
  {
    if s != [] && s[|s| - 1] != '/' {
      LastSegmentNoSeparator(s[..|s| - 1]);
    }
  }

  /** The last segment is a suffix of the path. */
  lemma {:induction false} LastSegmentIsSuffix(s: string)
    ensures |LastSegment(s)| <= |s| && LastSegment(s) == s[|s| - |LastSegment(s)|..]
  {
    if s != [] && s[|s| - 1] != '/' {
      var init := s[..|s| - 1];
      LastSegmentIsSuffix(init);
      var r' := LastSegment(init);
      assert r' + [s[|s| - 1]] == init[|init| - |r'|..] + [s[|s| - 1]] == s[|s| - 1 - |r'|..];
    }
  }

  /** A last segment shorter than the path is preceded by a separator. */
  lemma {:induction false} LastSegmentAfterSeparator(s: string)
    ensures |LastSegment(s)| < |s| ==> s[|s| - |LastSegment(s)| - 1] == '/'
  {
    if s != [] && s[|s| - 1] != '/' {
      var init := s[..|s| - 1];
      LastSegmentAfterSeparator(init);
      assert |LastSegment(s)| == |LastSegment(init)| + 1;
    }
  }

  /** After a separator (or at the start), a segment free of separators
      is what `split("/")[-1]` gives back. */
  lemma {:induction false} LastSegmentAfterSlash(p: string, base: string)
    requires p == [] || p[|p| - 1] == '/'
    requires '/' !in base
    ensures LastSegment(p + base) == base
  {
    if base != [] {
      var s := p + base;
      assert s[|s| - 1] == base[|base| - 1];
      assert s[..|s| - 1] == p + base[..|base| - 1];
      LastSegmentAfterSlash(p, base[..|base| - 1]);
    } else {
      assert p + base == p;
    }
  }

  /** Joining a separator-free, non-empty name onto a folder puts that
      name last. */
  lemma LastSegmentOfJoin(a: string, b: string)
    requires b != [] && '/' !in b
    ensures LastSegment(Join(a, b)) == b
  {
    assert b[0] != '/';
    if a == [] || a[|a| - 1] == '/' {
      LastSegmentAfterSlash(a, b);
    } else {
      LastSegmentAfterSlash(a + "/", b);
      assert a + "/" + b == (a + "/") + b;
    }
  }

  /** A pattern without separators that is absent from `p` cannot occur
      in `p + "/" + q` at any position up to the separator. */
  lemma AbsentUpToSlash(p: string, q: string, pat: string)
    requires pat != [] && '/' !in pat
    requires Absent(p, pat)
    ensures forall i :: 0 <= i <= |p| ==> !OccursAt(p + "/" + q, pat, i)
  {
    var s := p + "/" + q;
    forall i | 0 <= i <= |p|
      ensures !OccursAt(s, pat, i)
    {
      if i + |pat| <= |p| {
        assert s[i..i + |pat|] == p[i..i + |pat|];
        assert !OccursAt(p, pat, i);
      } else if i + |pat| <= |s| {
        assert s[i..i + |pat|][|p| - i] == '/';
        assert pat[|p| - i] != '/';
      }
    }
  }
}
