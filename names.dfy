/**
  The source-filename patterns `^<stem>(\d+)_orig\.(JPG|jpg)$` compiled with
  `re.I`, and the output name `<prefix><digits>.jpg`.

  Matching is anchored at the start (`re.match`); every literal character is
  compared ignoring ASCII case, so the alternation `(JPG|jpg)` accepts any
  casing of `jpg`; `$` accepts the end of the name or a single newline that
  ends it. Because the character after the digit run must be `_`, greedy
  matching of `\d+` never needs to back off, and the captured group is the
  whole maximal digit run.
*/
module Names {
  import opened Wrappers

  /** The fixed part that follows the digit run in a source name. */
  const Marker: string := "_orig.jpg"

  /** The extension of every output name. */
  const Extension: string := ".jpg"

  /** ASCII lower-casing, the case folding applied to both sides of a comparison. */
  function Fold(c: char): char {
    if 'A' <= c <= 'Z' then (c as int - 'A' as int + 'a' as int) as char else c
  }

  predicate SameIgnoringCase(a: string, b: string) {
    |a| == |b| && forall i :: 0 <= i < |a| ==> Fold(a[i]) == Fold(b[i])
  }

  predicate IsDigit(c: char) {
    '0' <= c <= '9'
  }

  predicate AllDigits(s: string) {
    forall i :: 0 <= i < |s| ==> IsDigit(s[i])
  }

  /** `$`: the end of the name, or a newline that is its last character. */
  predicate AtEnd(s: string) {
    s == "" || s == "\n"
  }

  /** Length of the longest run of digits at the start of `s` (what `\d+` consumes). */
  function DigitRun(s: string): (n: nat)
    ensures n <= |s|
    ensures AllDigits(s[..n])
    ensures n < |s| ==> !IsDigit(s[n])
  {
    if s == [] || !IsDigit(s[0]) then 0 else 1 + DigitRun(s[1..])
  }

  /**
    `pattern.match(name)` for the pattern built from `stem`: the captured
    digit run, or `None` when the name does not match.
  */
  function MatchSource(stem: string, name: string): (r: Option<string>)
    ensures r.Some? ==> |r.value| >= 1 && AllDigits(r.value)
  {
    var k := |stem|;
    if |name| < k || !SameIgnoringCase(name[..k], stem) then
      None
    else
      var n := DigitRun(name[k..]);
      var tail := name[k + n..];
      if n == 0 || |tail| < |Marker| || !SameIgnoringCase(tail[..|Marker|], Marker)
         || !AtEnd(tail[|Marker|..])
      then
        None
      else
        assert name[k..k + n] == name[k..][..n];
        Some(name[k..k + n])
  }

  /** The canonical source name for a digit string: `<stem><digits>_orig.jpg`. */
  function SourceName(stem: string, digits: string): string {
    stem + digits + Marker
  }

  /** The name of the derivative written for a source: `f"{prefix}{num}.jpg"`. */
  function OutName(prefix: string, digits: string): (r: string)
    ensures |r| == |prefix| + |digits| + |Extension|
    ensures r[..|prefix|] == prefix && r[|prefix|..|prefix| + |digits|] == digits
    ensures r[|r| - |Extension|..] == Extension
  {
    prefix + digits + Extension
  }

  /**
    The pattern's meaning, stated without the matcher: `digits` is a
    non-empty run of digits and the name is `<stem><digits>_orig.jpg` up to
    ASCII case, optionally followed by one final newline.
  */
  ghost predicate Recognises(stem: string, name: string, digits: string) {
    var canonical := SourceName(stem, digits);
    |digits| >= 1 && AllDigits(digits)
    && |canonical| <= |name|
    && SameIgnoringCase(name[..|canonical|], canonical)
    && AtEnd(name[|canonical|..])
  }

  /** A digit run that stops before a non-digit has exactly that length. */
  lemma {:induction false} DigitRunStopsAt(s: string, n: nat)
    requires n < |s| && AllDigits(s[..n]) && !IsDigit(s[n])
    ensures DigitRun(s) == n
  {
    if n > 0 {
      assert IsDigit(s[..n][0]);
      assert s[1..][..n - 1] == s[1..n];
      DigitRunStopsAt(s[1..], n - 1);
    }
  }

  /** Folding is the identity on characters that are not upper-case letters. */
  lemma FoldedEqualsNonLetter(c: char, d: char)
    requires !('A' <= d <= 'Z') && !('a' <= d <= 'z') && Fold(c) == Fold(d)
    ensures c == d
  {
  }

  /** The matcher recognises exactly the names the pattern describes, capturing the digits verbatim. */
  lemma MatchSourceExactly(stem: string, name: string, digits: string)
    ensures MatchSource(stem, name) == Some(digits) <==> Recognises(stem, name, digits)
  {
    if MatchSource(stem, name) == Some(digits) {
      MatchSourceSound(stem, name, digits);
    }
    if Recognises(stem, name, digits) {
      MatchSourceComplete(stem, name, digits);
    }
  }

  /** What the matcher accepts has the shape the pattern describes. */
  lemma MatchSourceSound(stem: string, name: string, digits: string)
    requires MatchSource(stem, name) == Some(digits)
    ensures Recognises(stem, name, digits)
  {
    var k, m, n, c := |stem|, |Marker|, |digits|, SourceName(stem, digits);
    var prefix := name[..|c|];
    assert prefix[..k] == name[..k];
    assert prefix[k..k + n] == digits;
    assert prefix[k + n..] == name[k + n..][..m];
    assert name[|c|..] == name[k + n..][m..];
    forall i | 0 <= i < |c|
      ensures Fold(prefix[i]) == Fold(c[i])
    {
      if i < k {
        assert prefix[i] == name[..k][i] && c[i] == stem[i];
      } else if i < k + n {
        assert prefix[i] == digits[i - k] && c[i] == digits[i - k];
      } else {
        assert prefix[i] == name[k + n..][..m][i - k - n] && c[i] == Marker[i - k - n];
      }
    }
  }

  /** Every name of the pattern's shape is accepted, with its digits captured. */
  lemma MatchSourceComplete(stem: string, name: string, digits: string)
    requires Recognises(stem, name, digits)
    ensures MatchSource(stem, name) == Some(digits)
  {
    var k, m, n, c := |stem|, |Marker|, |digits|, SourceName(stem, digits);
    var prefix := name[..|c|];
    var rest := name[k..];
    assert forall i :: 0 <= i < |c| ==> Fold(prefix[i]) == Fold(c[i]);
    forall i | 0 <= i < n
      ensures rest[i] == digits[i]
    {
      assert Fold(prefix[k + i]) == Fold(c[k + i]);
      FoldedEqualsNonLetter(rest[i], digits[i]);
    }
    assert rest[..n] == digits;
    assert Fold(prefix[k + n]) == Fold(c[k + n]) && c[k + n] == '_';
    FoldedEqualsNonLetter(rest[n], '_');
    DigitRunStopsAt(rest, n);
    forall i | 0 <= i < k
      ensures Fold(name[..k][i]) == Fold(stem[i])
    {
      assert Fold(prefix[i]) == Fold(c[i]);
    }
    var tail := name[k + n..];
    forall i | 0 <= i < m
      ensures Fold(tail[..m][i]) == Fold(Marker[i])
    {
      assert Fold(prefix[k + n + i]) == Fold(c[k + n + i]);
    }
    assert tail[m..] == name[|c|..];
    assert name[k..k + n] == rest[..n];
  }

  /** A name recognised for one digit string is recognised for no other. */
  lemma CaptureIsUnique(stem: string, name: string, d1: string, d2: string)
    requires Recognises(stem, name, d1) && Recognises(stem, name, d2)
    ensures d1 == d2
  {
    MatchSourceExactly(stem, name, d1);
    MatchSourceExactly(stem, name, d2);
  }

  /** The canonical source name is matched and gives its digits back. */
  lemma MatchSourceName(stem: string, digits: string)
    requires |digits| >= 1 && AllDigits(digits)
    ensures MatchSource(stem, SourceName(stem, digits)) == Some(digits)
  {
    var name := SourceName(stem, digits);
    assert name[..|name|] == name && name[|name|..] == "";
    MatchSourceExactly(stem, name, digits);
  }

  /** A digit string ending in the output extension has its digits as its digit run. */
  lemma DigitRunBeforeExtension(digits: string)
    requires AllDigits(digits)
    ensures DigitRun(digits + Extension) == |digits|
  {
    var s := digits + Extension;
    assert s[..|digits|] == digits;
    DigitRunStopsAt(s, |digits|);
  }

  /**
    An output name never matches the pattern of the same stem, so a
    derivative is never taken for a source on a later run.
  */
  lemma OutNameNotSource(stem: string, digits: string)
    requires AllDigits(digits)
    ensures MatchSource(stem, OutName(stem, digits)) == None
  {
    var name := OutName(stem, digits);
    var k := |stem|;
    assert name[..k] == stem;
    assert name[k..] == digits + Extension;
    DigitRunBeforeExtension(digits);
  }

  /** Distinct digit strings give distinct output names: leading zeros are kept. */
  lemma OutNameInjective(prefix: string, d1: string, d2: string)
    requires OutName(prefix, d1) == OutName(prefix, d2)
    ensures d1 == d2
  {
    var n1, n2 := OutName(prefix, d1), OutName(prefix, d2);
    assert d1 == n1[|prefix|..|prefix| + |d1|];
    assert d2 == n2[|prefix|..|prefix| + |d2|];
  }

  /** The documented example: `erps001_orig.JPG` captures `001` and yields `erps001.jpg`. */
  lemma DocumentedExample()
    ensures MatchSource("erps", "erps001_orig.JPG") == Some("001")
    ensures OutName("erps", "001") == "erps001.jpg"
  {
    assert Recognises("erps", "erps001_orig.JPG", "001");
    MatchSourceExactly("erps", "erps001_orig.JPG", "001");
  }

  /** A name without the `_orig` marker is not a source. */
  lemma NameWithoutMarkerIgnored()
    ensures MatchSource("erps", "erps001.jpg") == None
  {
    OutNameNotSource("erps", "001");
  }

  /**
    Two names differing only in case capture the same digits, so both
    produce the same output file and the later one overwrites the earlier.
  */
  lemma CaseVariantsShareOutput()
    ensures MatchSource("erps", "ERPS001_ORIG.JPG") == MatchSource("erps", "erps001_orig.JPG") == Some("001")
  {
    DocumentedExample();
    assert Recognises("erps", "ERPS001_ORIG.JPG", "001");
    MatchSourceExactly("erps", "ERPS001_ORIG.JPG", "001");
  }

  /** `$` lets one trailing newline through: such a name is a source too. */
  lemma TrailingNewlineAccepted()
    ensures MatchSource("erbts", "erbts7_orig.jpg\n") == Some("7")
  {
    assert Recognises("erbts", "erbts7_orig.jpg\n", "7");
    MatchSourceExactly("erbts", "erbts7_orig.jpg\n", "7");
  }
}
