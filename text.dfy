/**
 * The parts of Python's `str` behaviour the modelled code relies on, restricted
 * to ASCII: `lower`/`upper`, `isalpha`, `strip`, `in` (substring test),
 * `split(sep)`, `split()` and the runs found by the regular expression `\b\w+\b`.
 */
module Text {
  import opened Wrappers

  // ---------------------------------------------------------------------------
  // Character classes
  // ---------------------------------------------------------------------------

  /** Python's `str.isspace` on the ASCII range. */
  predicate IsSpace(c: char) {
    c == ' ' || c == '\t' || c == '\n' || c == '\r' || c == '\U{0B}' || c == '\U{0C}'
    || c == '\U{1C}' || c == '\U{1D}' || c == '\U{1E}' || c == '\U{1F}'
  }

  predicate IsUpperLetter(c: char) { 'A' <= c <= 'Z' }

  predicate IsLowerLetter(c: char) { 'a' <= c <= 'z' }

  predicate IsLetter(c: char) { IsUpperLetter(c) || IsLowerLetter(c) }

  predicate IsDigit(c: char) { '0' <= c <= '9' }

  /** The regular-expression class `\w` on the ASCII range. */
  predicate IsWordChar(c: char) { IsLetter(c) || IsDigit(c) || c == '_' }

  /** Python's `str.isalpha`: non-empty and letters only. */
  predicate IsAlpha(s: string) {
    |s| > 0 && forall i :: 0 <= i < |s| ==> IsLetter(s[i])
  }

  function LowerChar(c: char): char {
    if IsUpperLetter(c) then (c as int + 32) as char else c
  }

  function UpperChar(c: char): char {
    if IsLowerLetter(c) then (c as int - 32) as char else c
  }

  /** `str.lower()`: letter by letter, length preserved. */
  function Lower(s: string): (r: string)
    ensures |r| == |s|
    ensures forall i :: 0 <= i < |s| ==> r[i] == LowerChar(s[i])
  {
    seq(|s|, i requires 0 <= i < |s| => LowerChar(s[i]))
  }

  /** `str.upper()`. */
  function Upper(s: string): (r: string)
    ensures |r| == |s|
    ensures forall i :: 0 <= i < |s| ==> r[i] == UpperChar(s[i])
  {
    seq(|s|, i requires 0 <= i < |s| => UpperChar(s[i]))
  }

  /** Lower-casing twice is lower-casing once, and it keeps letters letters. */
  lemma LowerIdempotent(s: string)
    ensures Lower(Lower(s)) == Lower(s)
    ensures IsAlpha(s) <==> IsAlpha(Lower(s))
    ensures forall i :: 0 <= i < |s| ==> !IsUpperLetter(Lower(s)[i])
  {
  }

  // ---------------------------------------------------------------------------
  // strip()
  // ---------------------------------------------------------------------------

  /** `str.lstrip()`: drops the leading whitespace and nothing else. */
  function TrimLeft(s: string): (r: string)
    ensures |r| <= |s| && r == s[|s| - |r|..]
    ensures r == [] || !IsSpace(r[0])
    ensures forall i :: 0 <= i < |s| - |r| ==> IsSpace(s[i])
    decreases |s|
  {
    if s != [] && IsSpace(s[0]) then TrimLeft(s[1..]) else s
  }

  /** `str.rstrip()`: drops the trailing whitespace and nothing else. */
  function TrimRight(s: string): (r: string)
    ensures |r| <= |s| && r == s[..|r|]
    ensures r == [] || !IsSpace(r[|r| - 1])
    ensures forall i :: |r| <= i < |s| ==> IsSpace(s[i])
    decreases |s|
  {
    if s != [] && IsSpace(s[|s| - 1]) then TrimRight(s[..|s| - 1]) else s
  }

  /** `str.strip()`. */
  function Strip(s: string): (r: string)
    ensures |r| <= |s|
  {
    TrimRight(TrimLeft(s))
  }

  /** A stripped string starts and ends with a non-space, so stripping again changes nothing. */
  lemma StripIdempotent(s: string)
    ensures Strip(s) == [] || (!IsSpace(Strip(s)[0]) && !IsSpace(Strip(s)[|Strip(s)| - 1]))
    ensures Strip(Strip(s)) == Strip(s)
  {
    var l := TrimLeft(s);
    var r := TrimRight(l);
    if r != [] {
      assert r[0] == l[0];
    }
    assert TrimLeft(r) == r;
    assert TrimRight(r) == r;
  }

  // ---------------------------------------------------------------------------
  // Substring search: `pat in s` and `s.split(pat)`
  // ---------------------------------------------------------------------------

  predicate OccursAt(s: string, pat: string, i: int) {
    0 <= i && i + |pat| <= |s| && s[i..i + |pat|] == pat
  }

  /** The first position at which `pat` occurs in `s` (Python's `s.find(pat)`, with None for -1). */
  function Find(s: string, pat: string): (r: Option<nat>)
    ensures r.Some? ==> OccursAt(s, pat, r.value)
    ensures r.Some? ==> forall j :: 0 <= j < r.value ==> !OccursAt(s, pat, j)
    ensures r.None? ==> forall j :: 0 <= j <= |s| ==> !OccursAt(s, pat, j)
    decreases |s|
  {
    if pat <= s then Some(0)
    else if s == [] then None
    else
      var rest := Find(s[1..], pat);
      assert forall j :: 1 <= j <= |s| ==> (OccursAt(s, pat, j) <==> OccursAt(s[1..], pat, j - 1)) by {
        forall j | 1 <= j <= |s| ensures OccursAt(s, pat, j) <==> OccursAt(s[1..], pat, j - 1) {
          if j + |pat| <= |s| {
            assert s[1..][j - 1..j - 1 + |pat|] == s[j..j + |pat|];
          }
        }
      }
      assert !OccursAt(s, pat, 0);
      match rest
      case None => None
      case Some(k) => Some(k + 1)
  }

  /** Python's `pat in s`. */
  predicate Contains(s: string, pat: string) {
    Find(s, pat).Some?
  }

  lemma ContainsAt(s: string, pat: string, i: int)
    requires OccursAt(s, pat, i)
    ensures Contains(s, pat)
  {
  }
  /** For a one-character pattern, `pat in s` is membership of that character. */
  lemma ContainsChar(s: string, c: char)
    ensures Contains(s, [c]) <==> c in s
  {
    if c in s {
      var i :| 0 <= i < |s| && s[i] == c;
      assert s[i..i + 1] == [c];
      ContainsAt(s, [c], i);
    }
    if Contains(s, [c]) {
      var i := Find(s, [c]).value;
      assert s[i..i + 1] == [c];
      assert s[i] == c;
    }
  }

  /** A string that starts with a non-space is not blank. */
  lemma StripNonBlank(s: string)
    requires s != [] && !IsSpace(s[0])
    ensures Strip(s) != []
  {
    assert TrimLeft(s) == s;
  }


  /** `s.split(sep)[0]`: everything before the first `sep`, or all of `s`. */
  function Before(s: string, sep: string): (r: string)
    ensures |r| <= |s| && r == s[..|r|]
    ensures !Contains(r, sep) || sep == []
  {
    match Find(s, sep)
    case None => s
    case Some(i) =>
      assert forall j :: 0 <= j <= i ==> (OccursAt(s[..i], sep, j) ==> OccursAt(s, sep, j)) by {
        forall j | 0 <= j <= i && OccursAt(s[..i], sep, j) ensures OccursAt(s, sep, j) {
          assert s[..i][j..j + |sep|] == s[j..j + |sep|];
        }
      }
      s[..i]
  }

  /** `s.split(sep)[1]`, or None where Python raises IndexError (no `sep` in `s`). */
  function SecondField(s: string, sep: string): (r: Option<string>)
    ensures r.Some? <==> Contains(s, sep)
  {
    match Find(s, sep)
    case None => None
    case Some(i) => Some(Before(s[i + |sep|..], sep))
  }

  // ---------------------------------------------------------------------------
  // s.split(c) for a one-character separator, and its inverse
  // ---------------------------------------------------------------------------

  /** Python's `s.split(c)`: the pieces between separators, empty ones included. */
  function SplitOn(s: string, c: char): (r: seq<string>)
    ensures |r| >= 1
    ensures forall k :: 0 <= k < |r| ==> c !in r[k]
    decreases |s|
  {
    if s == [] then [""]
    else
      var rest := SplitOn(s[1..], c);
      if s[0] == c then [""] + rest
      else [[s[0]] + rest[0]] + rest[1..]
  }

  /** `c.join(pieces)`. */
  function Join(pieces: seq<string>, c: char): string
    requires |pieces| >= 1
    decreases |pieces|
  {
    if |pieces| == 1 then pieces[0] else pieces[0] + [c] + Join(pieces[1..], c)
  }

  /** Splitting loses nothing: joining the pieces back gives the original text. */
  lemma {:induction false} JoinSplitOn(s: string, c: char)
    ensures Join(SplitOn(s, c), c) == s
    decreases |s|
  {
    if s != [] {
      JoinSplitOn(s[1..], c);
      var rest := SplitOn(s[1..], c);
      if s[0] == c {
        assert SplitOn(s, c) == [""] + rest;
        assert (SplitOn(s, c))[1..] == rest;
      } else {
        var r := SplitOn(s, c);
        assert r[0] == [s[0]] + rest[0];
        if |rest| == 1 {
          assert |r| == 1;
        } else {
          assert r[1..] == rest[1..];
          assert Join(r, c) == [s[0]] + (rest[0] + [c] + Join(rest[1..], c));
        }
      }
    }
  }

  /** And the other way: pieces free of the separator come back from splitting their join. */
  lemma {:induction false} SplitOnJoin(pieces: seq<string>, c: char)
    requires |pieces| >= 1
    requires forall k :: 0 <= k < |pieces| ==> c !in pieces[k]
    ensures SplitOn(Join(pieces, c), c) == pieces
    decreases |pieces|, |pieces[0]|
  {
    var p := pieces[0];
    if p == [] {
      if |pieces| > 1 {
        SplitOnJoin(pieces[1..], c);
        var j := Join(pieces, c);
        assert j == [c] + Join(pieces[1..], c);
        assert j[1..] == Join(pieces[1..], c);
      }
    } else {
      var tail := [p[1..]] + pieces[1..];
      assert forall k :: 0 <= k < |tail| ==> c !in tail[k] by {
        forall k | 0 <= k < |tail| ensures c !in tail[k] {
          if k == 0 {
            assert forall m :: 0 <= m < |p[1..]| ==> p[1..][m] == p[m + 1];
          } else {
            assert tail[k] == pieces[k];
          }
        }
      }
      SplitOnJoin(tail, c);
      var j := Join(pieces, c);
      if |pieces| == 1 {
        assert Join(tail, c) == p[1..];
        assert j == p;
        assert j[1..] == p[1..];
      } else {
        assert tail[1..] == pieces[1..];
        assert Join(tail, c) == p[1..] + [c] + Join(pieces[1..], c);
        assert j[1..] == Join(tail, c);
      }
      assert j[0] == p[0];
      assert p == [p[0]] + p[1..];
    }
  }

  // ---------------------------------------------------------------------------
  // Maximal runs: `re.findall(r'\b\w+\b', s)` and `s.split()`
  // ---------------------------------------------------------------------------

  /** The two kinds of run the modelled code splits text into. */
  datatype RunClass = WordChars | NonSpace

  predicate InClass(c: char, k: RunClass) {
    match k
    case WordChars => IsWordChar(c)
    case NonSpace => !IsSpace(c)
  }

  /** The maximal runs of characters of class `k`, left to right. */
  function Runs(s: string, k: RunClass): (r: seq<string>)
    ensures s != [] && InClass(s[0], k) ==> |r| > 0 && r[0] != [] && r[0][0] == s[0]
    decreases |s|
  {
    if s == [] then []
    else
      var rest := Runs(s[1..], k);
      if !InClass(s[0], k) then rest
      else if |s| > 1 && InClass(s[1], k) then [[s[0]] + rest[0]] + rest[1..]
      else [[s[0]]] + rest
  }

  /** The characters of class `k`, in order. */
  function Keep(s: string, k: RunClass): string
    decreases |s|
  {
    if s == [] then [] else (if InClass(s[0], k) then [s[0]] else []) + Keep(s[1..], k)
  }

  function Concat(ss: seq<string>): string
    decreases |ss|
  {
    if ss == [] then [] else ss[0] + Concat(ss[1..])
  }

  /** Every run is non-empty. */
  lemma {:induction false} RunsNonEmpty(s: string, k: RunClass)
    ensures forall t :: 0 <= t < |Runs(s, k)| ==> Runs(s, k)[t] != []
    decreases |s|
  {
    if s != [] {
      RunsNonEmpty(s[1..], k);
      var rest := Runs(s[1..], k);
      var r := Runs(s, k);
      if InClass(s[0], k) {
        if |s| > 1 && InClass(s[1], k) {
          assert forall t :: 1 <= t < |r| ==> r[t] == rest[t];
        } else {
          assert forall t :: 1 <= t < |r| ==> r[t] == rest[t - 1];
        }
      }
    }
  }

  /** Every run is made of class-`k` characters only. */
  lemma {:induction false} RunsInClass(s: string, k: RunClass)
    ensures forall t, i :: 0 <= t < |Runs(s, k)| && 0 <= i < |Runs(s, k)[t]| ==> InClass(Runs(s, k)[t][i], k)
    decreases |s|
  {
    if s != [] {
      RunsInClass(s[1..], k);
      var rest := Runs(s[1..], k);
      var r := Runs(s, k);
      if InClass(s[0], k) {
        if |s| > 1 && InClass(s[1], k) {
          forall t, i | 0 <= t < |r| && 0 <= i < |r[t]| ensures InClass(r[t][i], k) {
            if t == 0 && i > 0 {
              assert r[0][i] == rest[0][i - 1];
            } else if t > 0 {
              assert r[t] == rest[t];
            }
          }
        } else {
          forall t, i | 0 <= t < |r| && 0 <= i < |r[t]| ensures InClass(r[t][i], k) {
            if t > 0 {
              assert r[t] == rest[t - 1];
            }
          }
        }
      }
    }
  }

  /** Together the runs hold exactly the class-`k` characters of the text, in order. */
  lemma {:induction false} RunsConcat(s: string, k: RunClass)
    ensures Concat(Runs(s, k)) == Keep(s, k)
    decreases |s|
  {
    if s != [] {
      RunsConcat(s[1..], k);
      var rest := Runs(s[1..], k);
      var r := Runs(s, k);
      if InClass(s[0], k) {
        assert Keep(s, k) == [s[0]] + Concat(rest);
        if |s| > 1 && InClass(s[1], k) {
          assert r[1..] == rest[1..];
          assert Concat(rest) == rest[0] + Concat(rest[1..]);
          assert Concat(r) == ([s[0]] + rest[0]) + Concat(rest[1..]);
        } else {
          assert r[1..] == rest;
        }
      }
    }
  }

  /** `re.findall(r'\b\w+\b', s)`: the maximal runs of word characters. */
  function WordTokens(s: string): seq<string> {
    Runs(s, WordChars)
  }

  /** `s.split()` with no argument: the maximal runs of non-whitespace. */
  function SplitWhitespace(s: string): seq<string> {
    Runs(s, NonSpace)
  }

  /** `" ".join(parts)`, which is "" for no parts. */
  function JoinWithSpace(parts: seq<string>): string {
    if parts == [] then "" else Join(parts, ' ')
  }
}
