/** The string operations the scripts apply to column names and cell values:
    Python's `str.strip()`, the column-name normalisation `lower()` then
    `replace(' ', '_')`, the removal of every occurrence of a phrase, and the
    decimal rendering of the integer `id`. */
module Text {

  /** Python's `str.isspace()` on one character: the characters `str.strip()` removes. */
  predicate IsSpace(c: char) {
    || c == ' ' || '\t' <= c <= '\r'
    || '\U{1C}' <= c <= '\U{1F}' || c == '\U{85}' || c == '\U{A0}' || c == '\U{1680}'
    || '\U{2000}' <= c <= '\U{200A}' || c == '\U{2028}' || c == '\U{2029}'
    || c == '\U{202F}' || c == '\U{205F}' || c == '\U{3000}'
  }

  predicate AllSpace(s: string) {
    forall k | 0 <= k < |s| :: IsSpace(s[k])
  }

  /** A string with no whitespace at either end. */
  predicate Stripped(s: string) {
    s == [] || (!IsSpace(s[0]) && !IsSpace(s[|s| - 1]))
  }

  /** The end of the run of whitespace that starts at `i`. */
  function SpaceRunEnd(s: string, i: nat): (j: nat)
    requires i <= |s|
    ensures i <= j <= |s|
    ensures forall k | i <= k < j :: IsSpace(s[k])
    ensures j == |s| || !IsSpace(s[j])
    decreases |s| - i
  {
    if i < |s| && IsSpace(s[i]) then SpaceRunEnd(s, i + 1) else i
  }

  /** The start of the run of whitespace that ends at `j`, going back no further than `lo`. */
  function SpaceRunStart(s: string, lo: nat, j: nat): (i: nat)
    requires lo <= j <= |s|
    ensures lo <= i <= j
    ensures forall k | i <= k < j :: IsSpace(s[k])
    ensures i == lo || !IsSpace(s[i - 1])
    decreases j
  {
    if lo < j && IsSpace(s[j - 1]) then SpaceRunStart(s, lo, j - 1) else j
  }

  /** Python's `str.strip()` with no argument: the factor of `s` left once the
      whitespace at both ends is gone. */
  function Strip(s: string): (r: string)
    ensures Stripped(r)
    ensures exists i | 0 <= i <= |s| - |r| :: r == s[i..i + |r|] && AllSpace(s[..i]) && AllSpace(s[i + |r|..])
  {
    var i := SpaceRunEnd(s, 0);
    var j := SpaceRunStart(s, i, |s|);
    var r := s[i..j];
    assert r == s[i..i + |r|];
    assert AllSpace(s[..i]) && AllSpace(s[i + |r|..]);
    r
  }

  lemma {:induction false} SpaceRunEndIs(s: string, i: nat, j: nat)
    requires i <= j <= |s|
    requires forall k | i <= k < j :: IsSpace(s[k])
    requires j == |s| || !IsSpace(s[j])
    ensures SpaceRunEnd(s, i) == j
    decreases j - i
  {
    if i < j {
      SpaceRunEndIs(s, i + 1, j);
    }
  }

  lemma {:induction false} SpaceRunStartIs(s: string, lo: nat, i: nat, j: nat)
    requires lo <= i <= j <= |s|
    requires forall k | i <= k < j :: IsSpace(s[k])
    requires i == lo || !IsSpace(s[i - 1])
    ensures SpaceRunStart(s, lo, j) == i
    decreases j - i
  {
    if i < j {
      SpaceRunStartIs(s, lo, i, j - 1);
    }
  }

  /** `strip()` is characterised by its result: whatever whitespace surrounds a
      stripped string, stripping gives that string back. */
  lemma StripSurrounded(a: string, m: string, b: string)
    requires AllSpace(a) && Stripped(m) && AllSpace(b)
    ensures Strip(a + m + b) == m
  {
    var s := a + m + b;
    if m == [] {
      assert forall k | 0 <= k < |s| :: IsSpace(s[k]) by {
        forall k | 0 <= k < |s| ensures IsSpace(s[k]) {
          if k < |a| { assert s[k] == a[k]; } else { assert s[k] == b[k - |a|]; }
        }
      }
      SpaceRunEndIs(s, 0, |s|);
      SpaceRunStartIs(s, |s|, |s|, |s|);
    } else {
      var i, j := |a|, |a| + |m|;
      assert s[i] == m[0] && s[j - 1] == m[|m| - 1];
      assert forall k | 0 <= k < i :: IsSpace(s[k]) by {
        forall k | 0 <= k < i ensures IsSpace(s[k]) { assert s[k] == a[k]; }
      }
      assert forall k | j <= k < |s| :: IsSpace(s[k]) by {
        forall k | j <= k < |s| ensures IsSpace(s[k]) { assert s[k] == b[k - j]; }
      }
      SpaceRunEndIs(s, 0, i);
      SpaceRunStartIs(s, i, j, |s|);
      assert s[i..j] == m;
    }
  }

  /** A string with no whitespace at either end is its own strip. */
  lemma StripStripped(m: string)
    requires Stripped(m)
    ensures Strip(m) == m
  {
    StripSurrounded([], m, []);
    assert [] + m + [] == m;
  }

  /** Stripping twice is stripping once. */
  lemma StripIdempotent(s: string)
    ensures Strip(Strip(s)) == Strip(s)
  {
    StripStripped(Strip(s));
  }

  // ---------------------------------------------------------------------
  // Column-name normalisation: `str.lower()`, then `str.replace(' ', '_')`.

  /** Upper-case letters of ASCII and Latin-1 (those `str.lower()` maps by adding 32). */
  predicate IsUpper(c: char) {
    'A' <= c <= 'Z' || ('\U{C0}' <= c <= '\U{DE}' && c != '\U{D7}')
  }

  function LowerChar(c: char): (l: char)
    ensures !IsUpper(l)
    ensures IsUpper(c) ==> l as int == c as int + 32
    ensures !IsUpper(c) ==> l == c
  {
    if IsUpper(c) then (c as int + 32) as char else c
  }

  /** `str.lower()`. */
  function Lower(s: string): (r: string)
    ensures |r| == |s|
    ensures forall k | 0 <= k < |r| :: !IsUpper(r[k])
  {
    seq(|s|, k requires 0 <= k < |s| => LowerChar(s[k]))
  }

  /** `str.replace(' ', '_')`. */
  function Underscore(s: string): (r: string)
    ensures |r| == |s|
    ensures forall k | 0 <= k < |r| :: r[k] != ' '
  {
    seq(|s|, k requires 0 <= k < |s| => if s[k] == ' ' then '_' else s[k])
  }

  /** A column name as the concatenating scripts rewrite it. Only upper-case
      letters and spaces change; the length and every other character stay. */
  function NormaliseName(name: string): (r: string)
    ensures |r| == |name|
    ensures forall k | 0 <= k < |r| :: r[k] != ' ' && !IsUpper(r[k])
    ensures forall k | 0 <= k < |r| :: name[k] == ' ' ==> r[k] == '_'
    ensures forall k | 0 <= k < |r| :: IsUpper(name[k]) ==> r[k] as int == name[k] as int + 32
    ensures forall k | 0 <= k < |r| :: !IsUpper(name[k]) && name[k] != ' ' ==> r[k] == name[k]
  {
    Underscore(Lower(name))
  }

  /** Normalising a normalised name changes nothing. */
  lemma NormaliseNameIdempotent(name: string)
    ensures NormaliseName(NormaliseName(name)) == NormaliseName(name)
  {
  }

  /** `df.columns.str.lower()` then `.str.replace(' ', '_')`: element-wise, same length and order. */
  function NormaliseNames(columns: seq<string>): (r: seq<string>)
    ensures |r| == |columns|
    ensures forall j | 0 <= j < |r| :: r[j] == NormaliseName(columns[j])
  {
    seq(|columns|, j requires 0 <= j < |columns| => NormaliseName(columns[j]))
  }

  // ---------------------------------------------------------------------
  // Removal of a phrase: `Series.str.replace(phrase, '')`.

  /** The phrase the cleaning scripts delete from `aor`. */
  const AorPhrase: string := "Area of Responsibility"

  /** `p` occurs somewhere in `s`. */
  predicate Occurs(p: string, s: string) {
    exists k | 0 <= k <= |s| :: p <= s[k..]
  }

  /** One left-to-right pass that deletes every non-overlapping occurrence of `p`. */
  function RemoveAll(s: string, p: string): (r: string)
    requires |p| > 0
    ensures |r| <= |s|
    decreases |s|
  {
    if |s| == 0 then []
    else if p <= s then RemoveAll(s[|p|..], p)
    else [s[0]] + RemoveAll(s[1..], p)
  }

  /** The pieces of `s` between the occurrences `RemoveAll` deletes (Python's `s.split(p)`). */
  function Split(s: string, p: string): (pieces: seq<string>)
    requires |p| > 0
    ensures |pieces| >= 1
    decreases |s|
  {
    if |s| == 0 then [[]]
    else if p <= s then [[]] + Split(s[|p|..], p)
    else
      var rest := Split(s[1..], p);
      [[s[0]] + rest[0]] + rest[1..]
  }

  /** `p.join(pieces)`. */
  function Join(pieces: seq<string>, p: string): string
    requires |pieces| >= 1
    decreases |pieces|
  {
    if |pieces| == 1 then pieces[0] else pieces[0] + p + Join(pieces[1..], p)
  }

  /** `''.join(pieces)`. */
  function Flatten(pieces: seq<string>): string
    decreases |pieces|
  {
    if |pieces| == 0 then [] else pieces[0] + Flatten(pieces[1..])
  }

  /** Flattening distributes over concatenation of the pieces. */
  lemma {:induction false} FlattenAppend(xs: seq<string>, ys: seq<string>)
    ensures Flatten(xs + ys) == Flatten(xs) + Flatten(ys)
    decreases |xs|
  {
    if |xs| == 0 {
      assert xs + ys == ys;
    } else {
      assert (xs + ys)[1..] == xs[1..] + ys;
      FlattenAppend(xs[1..], ys);
    }
  }

  /** In `x + [sep] + d` with no `sep` in `d`, `d` is everything after the last `sep`:
      two such texts with different last fields differ. */
  lemma LastFieldDetermined(x1: string, d1: string, x2: string, d2: string, sep: char)
    requires sep !in d1 && sep !in d2
    ensures x1 + [sep] + d1 == x2 + [sep] + d2 ==> d1 == d2
  {
    var s1, s2 := x1 + [sep] + d1, x2 + [sep] + d2;
    if s1 == s2 {
      assert |d1| == |d2| by {
        assert s1[|s1| - |d1| - 1] == sep;
        assert s2[|s2| - |d2| - 1] == sep;
      }
      assert d1 == s1[|s1| - |d1|..];
    }
  }

  lemma JoinAfterEmpty(pieces: seq<string>, p: string)
    requires |pieces| >= 1
    ensures Join([[]] + pieces, p) == p + Join(pieces, p)
  {
    assert ([[]] + pieces)[1..] == pieces;
  }

  lemma JoinPrepend(c: string, pieces: seq<string>, p: string)
    requires |pieces| >= 1
    ensures Join([c + pieces[0]] + pieces[1..], p) == c + Join(pieces, p)
  {
    var q := [c + pieces[0]] + pieces[1..];
    if |pieces| > 1 {
      assert q[1..] == pieces[1..];
      assert Join(q, p) == (c + pieces[0]) + p + Join(pieces[1..], p);
    }
  }

  /** Splitting and joining back with the phrase gives the original string. */
  lemma {:induction false} SplitJoin(s: string, p: string)
    requires |p| > 0
    ensures Join(Split(s, p), p) == s
    decreases |s|
  {
    if |s| == 0 {
    } else if p <= s {
      SplitJoin(s[|p|..], p);
      JoinAfterEmpty(Split(s[|p|..], p), p);
      assert s == p + s[|p|..];
    } else {
      SplitJoin(s[1..], p);
      JoinPrepend([s[0]], Split(s[1..], p), p);
      assert s == [s[0]] + s[1..];
    }
  }

  lemma FlattenPrepend(c: string, pieces: seq<string>)
    requires |pieces| >= 1
    ensures Flatten([c + pieces[0]] + pieces[1..]) == c + Flatten(pieces)
  {
    var q := [c + pieces[0]] + pieces[1..];
    assert q[1..] == pieces[1..];
  }

  /** The removal keeps exactly the pieces between the deleted occurrences, in order. */
  lemma {:induction false} RemoveAllIsFlattenedSplit(s: string, p: string)
    requires |p| > 0
    ensures RemoveAll(s, p) == Flatten(Split(s, p))
    decreases |s|
  {
    if |s| == 0 {
    } else if p <= s {
      var rest := Split(s[|p|..], p);
      calc {
        RemoveAll(s, p);
        RemoveAll(s[|p|..], p);
        { RemoveAllIsFlattenedSplit(s[|p|..], p); }
        Flatten(rest);
        { assert ([[]] + rest)[1..] == rest; }
        Flatten([[]] + rest);
      }
    } else {
      var rest := Split(s[1..], p);
      calc {
        RemoveAll(s, p);
        [s[0]] + RemoveAll(s[1..], p);
        { RemoveAllIsFlattenedSplit(s[1..], p); }
        [s[0]] + Flatten(rest);
        { FlattenPrepend([s[0]], rest); }
        Flatten([[s[0]] + rest[0]] + rest[1..]);
      }
    }
  }

  /** The first piece of a join is a prefix of it. */
  lemma {:induction false} JoinStartsWithFirst(pieces: seq<string>, p: string)
    requires |pieces| >= 1
    ensures pieces[0] <= Join(pieces, p)
  {
    if |pieces| > 1 {
      assert Join(pieces, p) == pieces[0] + (p + Join(pieces[1..], p));
    }
  }

  /** No piece between the deleted occurrences contains the phrase. */
  lemma {:induction false} SplitPiecesAreFree(s: string, p: string)
    requires |p| > 0
    ensures forall k | 0 <= k < |Split(s, p)| :: !Occurs(p, Split(s, p)[k])
    decreases |s|
  {
    var pieces := Split(s, p);
    if |s| == 0 {
      assert pieces == [[]];
      assert !Occurs(p, pieces[0]) by {
        forall k | 0 <= k <= 0 ensures !(p <= pieces[0][k..]) {}
      }
    } else if p <= s {
      SplitPiecesAreFree(s[|p|..], p);
      assert pieces[1..] == Split(s[|p|..], p);
      assert !Occurs(p, pieces[0]) by {
        forall k | 0 <= k <= 0 ensures !(p <= pieces[0][k..]) {}
      }
      forall k | 1 <= k < |pieces| ensures !Occurs(p, pieces[k]) {
        assert pieces[k] == Split(s[|p|..], p)[k - 1];
      }
    } else {
      SplitPiecesAreFree(s[1..], p);
      var rest := Split(s[1..], p);
      assert pieces[1..] == rest[1..];
      var first := [s[0]] + rest[0];
      assert pieces[0] == first;
      SplitJoin(s[1..], p);
      JoinStartsWithFirst(rest, p);
      assert first <= s by {
        assert rest[0] == s[1..][..|rest[0]|];
        assert first == s[..|first|];
      }
      forall k | 0 <= k <= |first| ensures !(p <= first[k..]) {
        if k == 0 {
          assert first[k..] == first;
        } else {
          assert first[k..] == rest[0][k - 1..];
          assert !Occurs(p, rest[0]);
        }
      }
      forall k | 1 <= k < |pieces| ensures !Occurs(p, pieces[k]) {
        assert pieces[k] == rest[k];
      }
    }
  }

  /** Without an occurrence of the phrase the pass changes nothing. */
  lemma {:induction false} RemoveAllAbsent(s: string, p: string)
    requires |p| > 0 && !Occurs(p, s)
    ensures RemoveAll(s, p) == s
    decreases |s|
  {
    if |s| > 0 {
      assert s[0..] == s;
      assert !Occurs(p, s[1..]) by {
        forall k | 0 <= k <= |s[1..]| ensures !(p <= s[1..][k..]) {
          assert s[1..][k..] == s[k + 1..];
        }
      }
      RemoveAllAbsent(s[1..], p);
    }
  }

  /** With an occurrence of the phrase the pass makes the string shorter. */
  lemma {:induction false} RemoveAllPresent(s: string, p: string)
    requires |p| > 0 && Occurs(p, s)
    ensures |RemoveAll(s, p)| < |s|
    decreases |s|
  {
    if !(p <= s) {
      var k :| 0 <= k <= |s| && p <= s[k..];
      assert k != 0;
      assert s[1..][k - 1..] == s[k..];
      RemoveAllPresent(s[1..], p);
    }
  }

  /** The pass leaves a string unchanged exactly when the phrase does not occur in it. */
  lemma RemoveAllUnchangedIff(s: string, p: string)
    requires |p| > 0
    ensures RemoveAll(s, p) == s <==> !Occurs(p, s)
  {
    if Occurs(p, s) {
      RemoveAllPresent(s, p);
    } else {
      RemoveAllAbsent(s, p);
    }
  }

  /** A string shorter than the phrase cannot contain it. */
  lemma ShortHasNoOccurrence(s: string, p: string)
    requires |s| < |p|
    ensures !Occurs(p, s)
  {
  }

  /** "Area of Responsibility - North" loses the phrase and keeps the rest, including the
      leading " - " (nothing strips `aor` unless a cleaning rule names it). */
  lemma RemoveAorPhraseExample()
    ensures RemoveAll("Area of Responsibility - North", AorPhrase) == " - North"
  {
    var s := "Area of Responsibility - North";
    assert s == AorPhrase + " - North";
    assert AorPhrase <= s;
    assert s[|AorPhrase|..] == " - North";
    ShortHasNoOccurrence(" - North", AorPhrase);
    RemoveAllAbsent(" - North", AorPhrase);
  }

  /** Characters at which no occurrence starts are kept, in order. */
  lemma {:induction false} RemoveAllKeepsPrefix(a: string, t: string, p: string)
    requires |p| > 0
    requires forall i | 0 <= i < |a| :: !(p <= (a + t)[i..])
    ensures RemoveAll(a + t, p) == a + RemoveAll(t, p)
    decreases |a|
  {
    if a != [] {
      assert (a + t)[0..] == a + t;
      assert (a + t)[1..] == a[1..] + t;
      forall i | 0 <= i < |a[1..]| ensures !(p <= (a[1..] + t)[i..]) {
        assert (a[1..] + t)[i..] == (a + t)[i + 1..];
      }
      RemoveAllKeepsPrefix(a[1..], t, p);
    }
  }

  lemma NoOccurrenceStartsInAreaOf()
    ensures forall i | 0 <= i < 8 :: !(AorPhrase <= ("Area of " + AorPhrase + "Responsibility")[i..])
  {
    var s := "Area of " + AorPhrase + "Responsibility";
    forall i | 0 <= i < 8 ensures !(AorPhrase <= s[i..]) {
      if i == 0 {
        assert s[8] == 'A';
        assert s[i..][8] != AorPhrase[8];
      } else {
        assert s[i] != 'A';
        assert s[i..][0] != AorPhrase[0];
      }
    }
  }

  /** When the phrase is `a + tail` and no occurrence starts inside the leading `a`,
      deleting the inner copy of `a + p + tail` rebuilds the phrase. */
  lemma {:induction false} RemoveAllRebuilds(a: string, tail: string, p: string)
    requires p == a + tail && |tail| < |p|
    requires forall i | 0 <= i < |a| :: !(p <= (a + p + tail)[i..])
    ensures RemoveAll(a + p + tail, p) == p
  {
    var t := p + tail;
    assert a + p + tail == a + t;
    RemoveAllKeepsPrefix(a, t, p);
    assert t[|p|..] == tail;
    ShortHasNoOccurrence(tail, p);
    RemoveAllAbsent(tail, p);
  }

  /** One pass is not idempotent: deleting the inner occurrence joins two halves into a new one. */
  lemma RemoveAorPhraseNotIdempotent()
    ensures var once := RemoveAll("Area of " + AorPhrase + "Responsibility", AorPhrase);
            once == AorPhrase && RemoveAll(once, AorPhrase) == [] && RemoveAll(once, AorPhrase) != once
  {
    NoOccurrenceStartsInAreaOf();
    RemoveAllRebuilds("Area of ", "Responsibility", AorPhrase);
    assert AorPhrase[|AorPhrase|..] == [];
  }

  // ---------------------------------------------------------------------
  // Python's `str()` of a non-negative integer.

  function DigitChar(d: nat): char
    requires d < 10
  {
    ('0' as int + d) as char
  }

  predicate IsDigits(s: string) {
    forall k | 0 <= k < |s| :: '0' <= s[k] <= '9'
  }

  /** Decimal rendering, no sign, no leading zero. */
  function NatToString(n: nat): (s: string)
    ensures |s| >= 1 && IsDigits(s)
    ensures |s| > 1 ==> s[0] != '0'
    decreases n
  {
    if n < 10 then [DigitChar(n)] else NatToString(n / 10) + [DigitChar(n % 10)]
  }

  /** `int(s)` for a string of decimal digits. */
  function ParseNat(s: string): nat
    requires IsDigits(s)
    decreases |s|
  {
    if |s| == 0 then 0 else ParseNat(s[..|s| - 1]) * 10 + (s[|s| - 1] as int - '0' as int)
  }

  /** The rendering is read back as the same number, so distinct numbers render differently. */
  lemma {:induction false} ParseNatToString(n: nat)
    ensures ParseNat(NatToString(n)) == n
    decreases n
  {
    if n >= 10 {
      ParseNatToString(n / 10);
      var s := NatToString(n);
      assert s[..|s| - 1] == NatToString(n / 10);
    }
  }
}
