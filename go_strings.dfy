/** The pieces of Go's standard library that the segmenter relies on,
    `strings.Split` with a non-empty separator and the decimal rendering of
    a non-negative integer done by the `%d` verb, together with `Join`,
    `HasPrefix` and `HasSuffix`, which the segmenter does not call but its
    properties are stated with.
    A `string` stands for a Go byte string: every element counts as one
    byte, so `|s|` is Go's `len(s)`. */
module GoStrings {

  /** `sep` occurs in `s` starting at position `i`. */
  predicate MatchAt(s: string, sep: string, i: int)
  {
    0 <= i && i + |sep| <= |s| && s[i..i + |sep|] == sep
  }

  /** Position of the leftmost occurrence of `sep` in `s` at or after `from`,
      or -1 when there is none (`strings.Index` when `from` is 0). */
  function IndexFrom(s: string, sep: string, from: nat): (r: int)
    ensures r == -1 || (from <= r && MatchAt(s, sep, r))
    ensures forall j :: from <= j && (r == -1 || j < r) ==> !MatchAt(s, sep, j)
    decreases |s| - from
  {
    if from + |sep| > |s| then -1
    else if s[from..from + |sep|] == sep then from
    else IndexFrom(s, sep, from + 1)
  }

  /** `strings.Split(s, sep)` for a non-empty `sep`: occurrences are taken
      left to right without overlap, and the pieces between them are kept,
      empty ones included; `Split("", sep)` is `[""]`. */
  function Split(s: string, sep: string): (parts: seq<string>)
    requires |sep| > 0
    ensures |parts| >= 1 && HasPrefix(s, parts[0])
    decreases |s|
  {
    var i := IndexFrom(s, sep, 0);
    if i < 0 then [s] else [s[..i]] + Split(s[i + |sep|..], sep)
  }

  /** A split gives a single piece exactly when the separator does not
      occur at all. */
  lemma SplitWhole(s: string, sep: string)
    requires |sep| > 0
    ensures |Split(s, sep)| == 1 <==> forall j :: !MatchAt(s, sep, j)
  {
    var i := IndexFrom(s, sep, 0);
    if i >= 0 {
      assert MatchAt(s, sep, i);
    }
  }

  /** `strings.Join(parts, sep)`. */
  function Join(parts: seq<string>, sep: string): string
  {
    if |parts| == 0 then ""
    else if |parts| == 1 then parts[0]
    else parts[0] + sep + Join(parts[1..], sep)
  }

  lemma JoinCons(a: string, parts: seq<string>, sep: string)
    requires |parts| >= 1
    ensures Join([a] + parts, sep) == a + sep + Join(parts, sep)
  {
    assert ([a] + parts)[1..] == parts;
  }

  /** Cutting out an occurrence and putting it back changes nothing. */
  lemma Reassemble(s: string, sep: string, i: int)
    requires MatchAt(s, sep, i)
    ensures s == s[..i] + sep + s[i + |sep|..]
  {
    assert s == s[..i] + s[i..i + |sep|] + s[i + |sep|..];
  }

  /** Joining the pieces of a split with the same separator gives back the
      original string. */
  lemma {:induction false} JoinSplit(s: string, sep: string)
    requires |sep| > 0
    ensures Join(Split(s, sep), sep) == s
    decreases |s|
  {
    var i := IndexFrom(s, sep, 0);
    if i >= 0 {
      var rest := s[i + |sep|..];
      JoinSplit(rest, sep);
      JoinCons(s[..i], Split(rest, sep), sep);
      Reassemble(s, sep, i);
    }
  }

  /** An occurrence inside a prefix is an occurrence in the whole string. */
  lemma PrefixMatch(s: string, sep: string, i: nat, j: int)
    requires i <= |s|
    ensures MatchAt(s[..i], sep, j) ==> MatchAt(s, sep, j)
  {
    if MatchAt(s[..i], sep, j) {
      assert s[..i][j..j + |sep|] == s[j..j + |sep|];
    }
  }

  /** No piece of a split contains the separator. */
  lemma {:induction false} SplitPartsAvoidSeparator(s: string, sep: string)
    requires |sep| > 0
    ensures forall k, j :: 0 <= k < |Split(s, sep)| ==> !MatchAt(Split(s, sep)[k], sep, j)
    decreases |s|
  {
    var i := IndexFrom(s, sep, 0);
    var parts := Split(s, sep);
    if i >= 0 {
      var rest := s[i + |sep|..];
      SplitPartsAvoidSeparator(rest, sep);
      forall k, j | 0 <= k < |parts| ensures !MatchAt(parts[k], sep, j) {
        if k == 0 {
          PrefixMatch(s, sep, i, j);
        } else {
          assert parts[k] == Split(rest, sep)[k - 1];
        }
      }
    }
  }

  /** Every cut is at the leftmost occurrence: a piece that the separator
      follows contains no occurrence starting inside it, not even one that
      reaches into that separator. With `JoinSplit` and
      `SplitPartsAvoidSeparator` this pins the pieces down uniquely. */
  lemma {:induction false} SplitFirstCut(s: string, sep: string)
    requires |sep| > 0
    ensures var parts := Split(s, sep);
      forall k, j :: 0 <= k < |parts| - 1 && 0 <= j < |parts[k]| ==> !MatchAt(parts[k] + sep, sep, j)
    decreases |s|
  {
    var parts := Split(s, sep);
    var i := IndexFrom(s, sep, 0);
    if i >= 0 {
      var rest := s[i + |sep|..];
      SplitFirstCut(rest, sep);
      forall k, j | 0 <= k < |parts| - 1 && 0 <= j < |parts[k]|
        ensures !MatchAt(parts[k] + sep, sep, j)
      {
        if k == 0 {
          assert parts[0] + sep == s[..i + |sep|];
          PrefixMatch(s, sep, i + |sep|, j);
        } else {
          assert parts[k] == Split(rest, sep)[k - 1];
        }
      }
    }
  }

  /** When no piece contains the first byte of the separator, splitting the
      joined pieces gives back exactly those pieces. */
  lemma {:induction false} SplitJoin(parts: seq<string>, sep: string)
    requires |sep| > 0 && |parts| >= 1
    requires forall k, j :: 0 <= k < |parts| && 0 <= j < |parts[k]| ==> parts[k][j] != sep[0]
    ensures Split(Join(parts, sep), sep) == parts
    decreases |parts|
  {
    var s := Join(parts, sep);
    var p0 := parts[0];
    // no occurrence can start inside the first piece
    forall j | 0 <= j < |p0| && j < |s| ensures !MatchAt(s, sep, j) {
      if |parts| == 1 {
        assert s == p0;
      } else {
        assert s == p0 + (sep + Join(parts[1..], sep));
      }
      assert s[j] == p0[j] != sep[0];
    }
    var i := IndexFrom(s, sep, 0);
    if |parts| == 1 {
      assert s == p0;
      assert i == -1;
    } else {
      var rest := Join(parts[1..], sep);
      assert s == p0 + sep + rest;
      assert s[|p0|..|p0| + |sep|] == sep;
      assert MatchAt(s, sep, |p0|);
      assert i == |p0|;
      assert s[..i] == p0;
      assert s[i + |sep|..] == rest;
      SplitJoin(parts[1..], sep);
    }
  }

  /** `strings.HasPrefix(s, prefix)`. */
  predicate HasPrefix(s: string, prefix: string)
  {
    |prefix| <= |s| && s[..|prefix|] == prefix
  }

  /** `strings.HasSuffix(s, suffix)`. */
  predicate HasSuffix(s: string, suffix: string)
  {
    |suffix| <= |s| && s[|s| - |suffix|..] == suffix
  }

  /** The ASCII digit for `d`. */
  function DigitChar(d: nat): (c: char)
    requires d < 10
    ensures '0' <= c <= '9' && c as int - '0' as int == d
  {
    ('0' as int + d) as char
  }

  predicate IsDigits(s: string)
  {
    forall k :: 0 <= k < |s| ==> '0' <= s[k] <= '9'
  }

  /** `fmt.Sprintf("%d", n)` for a non-negative `n`: the shortest decimal
      rendering, with no sign and no leading zero. */
  function Itoa(n: nat): (r: string)
    ensures |r| >= 1 && IsDigits(r)
    ensures r[0] == '0' <==> n == 0
  {
    if n < 10 then [DigitChar(n)] else Itoa(n / 10) + [DigitChar(n % 10)]
  }

  /** Reads a string of decimal digits back into a number. */
  function ParseDecimal(s: string): nat
    requires IsDigits(s)
  {
    if |s| == 0 then 0
    else ParseDecimal(s[..|s| - 1]) * 10 + (s[|s| - 1] as int - '0' as int)
  }

  /** Decimal rendering is undone by reading the digits back. */
  lemma {:induction false} ParseItoa(n: nat)
    ensures ParseDecimal(Itoa(n)) == n
  {
    var r := Itoa(n);
    if n >= 10 {
      ParseItoa(n / 10);
      assert r[..|r| - 1] == Itoa(n / 10);
    }
  }

  /** A number takes at most two digits exactly when it is at most 99. */
  lemma ItoaWidth(n: nat)
    ensures |Itoa(n)| <= 2 <==> n <= 99
  {
    if n >= 10 {
      assert |Itoa(n)| == |Itoa(n / 10)| + 1;
      if n >= 100 {
        assert n / 10 >= 10;
        assert |Itoa(n / 10)| == |Itoa(n / 100)| + 1;
      }
    }
  }
}
