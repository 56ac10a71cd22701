/** The JavaScript string operations the import relies on: `split` with a string
    separator, `trim`, and `toLowerCase` as far as it matters for comparing with an
    ASCII literal. Strings are sequences of characters. */
module JsStrings {

  /** `sep` occurs in `s` starting at index `i`. */
  predicate OccursAt(s: string, sep: string, i: int)
  {
    0 <= i && i + |sep| <= |s| && s[i..i + |sep|] == sep
  }

  predicate Contains(s: string, sep: string)
  {
    exists i :: 0 <= i <= |s| && OccursAt(s, sep, i)
  }

  /** `s.split(sep)`: the pieces between the non-overlapping occurrences of `sep`
      found scanning left to right; the empty string gives one empty piece. */
  function Split(s: string, sep: string): (parts: seq<string>)
    requires sep != []
    ensures |parts| >= 1
    decreases |s|
  {
    if |s| < |sep| then [s]
    else if s[..|sep|] == sep then [""] + Split(s[|sep|..], sep)
    else
      var rest := Split(s[1..], sep);
      [[s[0]] + rest[0]] + rest[1..]
  }

  /** `parts.join(sep)`, the inverse of Split. */
  function Join(parts: seq<string>, sep: string): string
    requires |parts| >= 1
    decreases |parts|
  {
    if |parts| == 1 then parts[0] else parts[0] + sep + Join(parts[1..], sep)
  }

  lemma JoinExtendedHead(c: char, parts: seq<string>, sep: string)
    requires |parts| >= 1
    ensures Join([[c] + parts[0]] + parts[1..], sep) == [c] + Join(parts, sep)
  {
    var q := [[c] + parts[0]] + parts[1..];
    assert q[1..] == parts[1..];
  }

  /** Joining the pieces with the separator gives back the original string. */
  lemma {:induction false} JoinSplit(s: string, sep: string)
    requires sep != []
    ensures Join(Split(s, sep), sep) == s
    decreases |s|
  {
    if |s| < |sep| {
    } else if s[..|sep|] == sep {
      var rest := Split(s[|sep|..], sep);
      JoinSplit(s[|sep|..], sep);
      assert ([""] + rest)[1..] == rest;
      assert s == s[..|sep|] + s[|sep|..];
    } else {
      var rest := Split(s[1..], sep);
      JoinSplit(s[1..], sep);
      JoinExtendedHead(s[0], rest, sep);
      assert s == [s[0]] + s[1..];
    }
  }

  /** The first piece is a prefix of the string. */
  lemma {:induction false} FirstPartIsPrefix(s: string, sep: string)
    requires sep != []
    ensures |Split(s, sep)[0]| <= |s| && Split(s, sep)[0] == s[..|Split(s, sep)[0]|]
    decreases |s|
  {
    if |s| < |sep| {
      assert Split(s, sep)[0] == s == s[..|s|];
    } else if s[..|sep|] == sep {
      assert Split(s, sep)[0] == [];
    } else {
      var rest := Split(s[1..], sep);
      FirstPartIsPrefix(s[1..], sep);
      assert Split(s, sep)[0] == [s[0]] + rest[0];
      assert [s[0]] + rest[0] == s[..|rest[0]| + 1];
    }
  }

  /** No piece contains the separator. */
  lemma {:induction false} SplitPartsOmitSeparator(s: string, sep: string)
    requires sep != []
    ensures forall k :: 0 <= k < |Split(s, sep)| ==> !Contains(Split(s, sep)[k], sep)
    decreases |s|
  {
    var parts := Split(s, sep);
    if |s| < |sep| {
      assert parts == [s];
      assert !Contains(s, sep);
    } else if s[..|sep|] == sep {
      var rest := Split(s[|sep|..], sep);
      SplitPartsOmitSeparator(s[|sep|..], sep);
      assert parts == [""] + rest;
      forall k | 0 <= k < |parts| ensures !Contains(parts[k], sep) {
        if k > 0 {
          assert parts[k] == rest[k - 1];
        }
      }
    } else {
      var rest := Split(s[1..], sep);
      SplitPartsOmitSeparator(s[1..], sep);
      FirstPartIsPrefix(s[1..], sep);
      ExtendedPieceOmitsSeparator(s, sep, rest[0]);
      assert parts == [[s[0]] + rest[0]] + rest[1..];
      forall k | 0 <= k < |parts| ensures !Contains(parts[k], sep) {
        if k > 0 {
          assert parts[k] == rest[k];
        }
      }
    }
  }

  /** A piece that grows by the string's first character stays free of the
      separator when the separator does not start the string. */
  lemma ExtendedPieceOmitsSeparator(s: string, sep: string, q: string)
    requires sep != [] && |sep| <= |s| && s[..|sep|] != sep
    requires |q| <= |s| - 1 && q == s[1..][..|q|] && !Contains(q, sep)
    ensures !Contains([s[0]] + q, sep)
  {
    var p := [s[0]] + q;
    assert p == s[..|p|];
    forall i | 0 <= i <= |p| && OccursAt(p, sep, i) ensures false {
      if i > 0 {
        assert q[i - 1..i - 1 + |sep|] == p[i..i + |sep|];
        assert OccursAt(q, sep, i - 1);
      }
    }
  }

  /** The separator occurs in the string exactly when splitting yields more than one piece. */
  lemma SplitCountsSeparator(s: string, sep: string)
    requires sep != []
    ensures |Split(s, sep)| == 1 <==> !Contains(s, sep)
  {
    var parts := Split(s, sep);
    JoinSplit(s, sep);
    SplitPartsOmitSeparator(s, sep);
    if |parts| > 1 {
      assert s == parts[0] + sep + Join(parts[1..], sep);
      assert s[|parts[0]|..|parts[0]| + |sep|] == sep;
      assert OccursAt(s, sep, |parts[0]|);
    } else {
      assert !Contains(parts[0], sep);
    }
  }

  /** Splitting cuts at the leftmost occurrence of the separator and carries on
      after it. */
  lemma {:induction false} SplitAtFirst(s: string, sep: string, n: int)
    requires sep != [] && OccursAt(s, sep, n)
    requires forall i :: 0 <= i < n ==> !OccursAt(s, sep, i)
    ensures Split(s, sep) == [s[..n]] + Split(s[n + |sep|..], sep)
    decreases n
  {
    if n == 0 {
      assert s[..|sep|] == sep;
    } else {
      assert !OccursAt(s, sep, 0);
      var t := s[1..];
      FirstOccurrenceInTail(s, sep, n);
      SplitAtFirst(t, sep, n - 1);
      assert t[n - 1 + |sep|..] == s[n + |sep|..];
      ExtendFirstPiece(s, sep, n, Split(s[n + |sep|..], sep));
    }
  }

  /** When the separator does not start the string, the first character joins
      the first piece of the rest. */
  lemma ExtendFirstPiece(s: string, sep: string, n: int, after: seq<string>)
    requires sep != [] && 0 < n <= |s| && |sep| <= |s| && s[..|sep|] != sep
    requires Split(s[1..], sep) == [s[1..][..n - 1]] + after
    ensures Split(s, sep) == [s[..n]] + after
  {
    var rest := Split(s[1..], sep);
    assert Split(s, sep) == [[s[0]] + rest[0]] + rest[1..];
    assert rest[0] == s[1..][..n - 1];
    assert rest[1..] == after;
    assert s[1..][..n - 1] == s[1..n];
    assert s[..n] == [s[0]] + s[1..n];
  }

  /** Dropping the first character moves the first occurrence one place left. */
  lemma FirstOccurrenceInTail(s: string, sep: string, n: int)
    requires 0 < n && OccursAt(s, sep, n)
    requires forall i :: 0 <= i < n ==> !OccursAt(s, sep, i)
    ensures OccursAt(s[1..], sep, n - 1)
    ensures forall i :: 0 <= i < n - 1 ==> !OccursAt(s[1..], sep, i)
  {
    assert s[1..][n - 1..n - 1 + |sep|] == s[n..n + |sep|];
    forall i | 0 <= i < n - 1 ensures !OccursAt(s[1..], sep, i) {
      ShiftedOccurrence(s, sep, i);
    }
  }

  lemma ShiftedOccurrence(s: string, sep: string, i: int)
    requires |s| >= 1 && 0 <= i
    ensures OccursAt(s[1..], sep, i) ==> OccursAt(s, sep, i + 1)
  {
    if OccursAt(s[1..], sep, i) {
      assert s[1..][i..i + |sep|] == s[i + 1..i + 1 + |sep|];
    }
  }

  /** Without an occurrence of the separator the string is its own single piece. */
  lemma SplitWithoutSeparator(s: string, sep: string)
    requires sep != [] && !Contains(s, sep)
    ensures Split(s, sep) == [s]
  {
    SplitCountsSeparator(s, sep);
    JoinSplit(s, sep);
  }

  // ---------------------------------------------------------------------------
  // trim

  /** ECMAScript WhiteSpace and LineTerminator code points, which `trim` removes. */
  predicate IsWhiteSpace(c: char)
  {
    c == '\t' || c == '\n' || c == '\U{000B}' || c == '\U{000C}' || c == '\r'
    || c == ' ' || c == '\U{00A0}' || c == '\U{1680}'
    || ('\U{2000}' <= c <= '\U{200A}')
    || c == '\U{2028}' || c == '\U{2029}' || c == '\U{202F}' || c == '\U{205F}'
    || c == '\U{3000}' || c == '\U{FEFF}'
  }

  predicate AllWhiteSpace(s: string)
  {
    forall i :: 0 <= i < |s| ==> IsWhiteSpace(s[i])
  }

  lemma WhiteSpaceCons(c: char, w: string)
    requires IsWhiteSpace(c) && AllWhiteSpace(w)
    ensures AllWhiteSpace([c] + w)
  {
  }

  lemma WhiteSpaceSnoc(w: string, c: char)
    requires AllWhiteSpace(w) && IsWhiteSpace(c)
    ensures AllWhiteSpace(w + [c])
  {
  }

  /** Drops the leading white space. */
  function TrimStart(s: string): (r: string)
    ensures |r| <= |s| && r == s[|s| - |r|..]
    ensures AllWhiteSpace(s[..|s| - |r|])
    ensures r == [] || !IsWhiteSpace(r[0])
    decreases |s|
  {
    if s != [] && IsWhiteSpace(s[0]) then
      var r := TrimStart(s[1..]);
      assert s[..|s| - |r|] == [s[0]] + s[1..][..|s| - 1 - |r|];
      WhiteSpaceCons(s[0], s[1..][..|s| - 1 - |r|]);
      r
    else s
  }

  /** Drops the trailing white space. */
  function TrimEnd(s: string): (r: string)
    ensures |r| <= |s| && r == s[..|r|]
    ensures AllWhiteSpace(s[|r|..])
    ensures r == [] || !IsWhiteSpace(r[|r| - 1])
    decreases |s|
  {
    if s != [] && IsWhiteSpace(s[|s| - 1]) then
      var r := TrimEnd(s[..|s| - 1]);
      assert s[|r|..] == s[..|s| - 1][|r|..] + [s[|s| - 1]];
      WhiteSpaceSnoc(s[..|s| - 1][|r|..], s[|s| - 1]);
      r
    else s
  }

  /** `s.trim()`: white space removed from both ends. */
  function Trim(s: string): (r: string)
    ensures |r| <= |s|
    ensures r == [] || (!IsWhiteSpace(r[0]) && !IsWhiteSpace(r[|r| - 1]))
  {
    TrimEnd(TrimStart(s))
  }

  /** `r` is an infix of `s` with only white space before and after it. */
  predicate InfixBetweenWhiteSpace(s: string, r: string)
  {
    exists i :: 0 <= i <= |s| - |r| && s[i..i + |r|] == r
                && AllWhiteSpace(s[..i]) && AllWhiteSpace(s[i + |r|..])
  }

  /** The trimmed string is the infix of `s` left between white-space runs at
      both ends. */
  lemma TrimIsInfix(s: string)
    ensures InfixBetweenWhiteSpace(s, Trim(s))
  {
    var t := TrimStart(s);
    var r := TrimEnd(t);
    assert Trim(s) == r;
    PrefixOfSuffixIsInfix(s, t, r);
  }

  lemma PrefixOfSuffixIsInfix(s: string, t: string, r: string)
    requires |t| <= |s| && t == s[|s| - |t|..] && AllWhiteSpace(s[..|s| - |t|])
    requires |r| <= |t| && r == t[..|r|] && AllWhiteSpace(t[|r|..])
    ensures InfixBetweenWhiteSpace(s, r)
  {
    var i := |s| - |t|;
    assert s[i..i + |r|] == r;
    assert s[i + |r|..] == t[|r|..];
  }

  /** A string that neither starts nor ends with white space is already trimmed. */
  lemma TrimKeepsTrimmed(s: string)
    requires s == [] || (!IsWhiteSpace(s[0]) && !IsWhiteSpace(s[|s| - 1]))
    ensures Trim(s) == s
  {
    assert TrimStart(s) == s;
    assert TrimEnd(s) == s;
  }

  /** Leading white space does not change the trimmed string. */
  lemma TrimSkipsLeadingSpace(c: char, s: string)
    requires IsWhiteSpace(c)
    ensures Trim([c] + s) == Trim(s)
  {
    assert ([c] + s)[1..] == s;
    assert TrimStart([c] + s) == TrimStart(s);
  }

  /** `xs.map(f)` over an array of strings. */
  function MapEach(f: string -> string, xs: seq<string>): (ys: seq<string>)
    ensures |ys| == |xs|
    decreases |xs|
  {
    if xs == [] then [] else [f(xs[0])] + MapEach(f, xs[1..])
  }

  lemma {:induction false} MapEachAt(f: string -> string, xs: seq<string>, i: int)
    requires 0 <= i < |xs|
    ensures MapEach(f, xs)[i] == f(xs[i])
    decreases |xs|
  {
    if i > 0 {
      MapEachAt(f, xs[1..], i - 1);
      assert xs[1..][i - 1] == xs[i];
    }
  }

  // ---------------------------------------------------------------------------
  // toLowerCase

  /** Lower-casing restricted to ASCII letters. For the comparison with "n/a" this
      agrees with JavaScript's `toLowerCase`: besides 'N' and 'A' themselves, no code
      point lower-cases to 'n', '/' or 'a', nor to a sequence containing them. Other
      ASCII letters are not covered by that argument (U+212A KELVIN SIGN lower-cases
      to 'k'). */
  function ToLowerAscii(c: char): (l: char)
  {
    if 'A' <= c <= 'Z' then (c as int + 32) as char else c
  }

  function ToLower(s: string): (r: string)
    ensures |r| == |s|
    ensures forall i :: 0 <= i < |s| ==> r[i] == ToLowerAscii(s[i])
    decreases |s|
  {
    if s == [] then [] else [ToLowerAscii(s[0])] + ToLower(s[1..])
  }
}
