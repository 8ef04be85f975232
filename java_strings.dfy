/**
 * The few operations of java.lang.String that the core relies on, with
 * Java's edge cases: indexOf/lastIndexOf answer -1 when nothing is found,
 * trim drops every character up to U+0020 at both ends, and split drops
 * trailing empty pieces unless the separator does not occur at all.
 */
module JavaStrings {

  /** String.indexOf(c, from): the first position at or after `from` holding `c`, or -1. */
  function IndexOfFrom(s: string, c: char, from: int): (r: int)
    ensures -1 <= r < |s|
    ensures r >= 0 ==> from <= r && s[r] == c
    ensures r >= 0 ==> forall k :: from <= k < r && 0 <= k ==> s[k] != c
    ensures r == -1 ==> forall k :: from <= k < |s| && 0 <= k ==> s[k] != c
    decreases |s| - from
  {
    if from < 0 then IndexOfFrom(s, c, 0)
    else if from >= |s| then -1
    else if s[from] == c then from
    else IndexOfFrom(s, c, from + 1)
  }

  /** String.indexOf(c). */
  function IndexOf(s: string, c: char): int
  {
    IndexOfFrom(s, c, 0)
  }

  /** The last position below `bound` holding `c`, or -1. */
  function LastIndexBefore(s: string, c: char, bound: nat): (r: int)
    requires bound <= |s|
    ensures -1 <= r < bound
    ensures r >= 0 ==> s[r] == c
    ensures forall k :: r < k < bound && 0 <= k ==> s[k] != c
    decreases bound
  {
    if bound == 0 then -1
    else if s[bound - 1] == c then bound - 1
    else LastIndexBefore(s, c, bound - 1)
  }

  /** String.lastIndexOf(c). */
  function LastIndexOf(s: string, c: char): int
  {
    LastIndexBefore(s, c, |s|)
  }

  /** `t` occurs in `s` starting at position `i`. */
  predicate OccursAt(s: string, t: string, i: int)
  {
    0 <= i && i + |t| <= |s| && s[i..i + |t|] == t
  }

  /** String.contains(t). */
  predicate Contains(s: string, t: string)
  {
    exists i | 0 <= i <= |s| :: OccursAt(s, t, i)
  }

  /** String.indexOf(t, from) for from >= 0: the first occurrence of `t` at or after `from`, or -1. */
  function IndexOfSubFrom(s: string, t: string, from: nat): (r: int)
    ensures r == -1 || (from <= r && OccursAt(s, t, r))
    ensures r >= 0 ==> forall k :: from <= k < r ==> !OccursAt(s, t, k)
    ensures r == -1 ==> forall k :: from <= k ==> !OccursAt(s, t, k)
    decreases |s| - from
  {
    if from + |t| > |s| then -1
    else if s[from..from + |t|] == t then from
    else IndexOfSubFrom(s, t, from + 1)
  }

  /** String.indexOf(t). */
  function IndexOfSub(s: string, t: string): (r: int)
    ensures r == -1 <==> !Contains(s, t)
    ensures r >= 0 ==> OccursAt(s, t, r) && forall k :: 0 <= k < r ==> !OccursAt(s, t, k)
  {
    IndexOfSubFrom(s, t, 0)
  }

  /** An occurrence with none before it is the one indexOf finds. */
  lemma IndexOfSubAt(s: string, t: string, i: nat)
    requires OccursAt(s, t, i) && forall k :: 0 <= k < i ==> !OccursAt(s, t, k)
    ensures IndexOfSub(s, t) == i
  {
    assert Contains(s, t);
  }

  /** An occurrence inside the middle part is an occurrence in the whole. */
  lemma ContainsInContext(a: string, s: string, b: string, t: string)
    requires Contains(s, t)
    ensures Contains(a + s + b, t)
  {
    var i :| 0 <= i <= |s| && OccursAt(s, t, i);
    assert (a + s + b)[|a| + i..|a| + i + |t|] == s[i..i + |t|];
    assert OccursAt(a + s + b, t, |a| + i);
  }

  /** A string contains its own prefix. */
  lemma ContainsPrefix(t: string, rest: string)
    ensures Contains(t + rest, t)
  {
    assert (t + rest)[0..|t|] == t;
    assert OccursAt(t + rest, t, 0);
  }

  /** Java's notion of white space for trim(): every character up to U+0020. */
  predicate IsTrimmable(c: char)
  {
    c <= ' '
  }

  function TrimStart(s: string): (r: string)
    ensures |r| <= |s| && r == s[|s| - |r|..]
    ensures r == [] || !IsTrimmable(r[0])
    ensures forall k :: 0 <= k < |s| - |r| ==> IsTrimmable(s[k])
  {
    if s == [] || !IsTrimmable(s[0]) then s else TrimStart(s[1..])
  }

  function TrimEnd(s: string): (r: string)
    ensures |r| <= |s| && r == s[..|r|]
    ensures r == [] || !IsTrimmable(r[|r| - 1])
    ensures forall k :: |r| <= k < |s| ==> IsTrimmable(s[k])
  {
    if s == [] || !IsTrimmable(s[|s| - 1]) then s else TrimEnd(s[..|s| - 1])
  }

  /** String.trim(): the longest middle part that neither starts nor ends with white space. */
  function Trim(s: string): (r: string)
    ensures r == [] || (!IsTrimmable(r[0]) && !IsTrimmable(r[|r| - 1]))
    ensures Contains(s, r)
  {
    var t := TrimStart(s);
    var r := TrimEnd(t);
    var i := |s| - |t|;
    assert OccursAt(s, r, i);
    r
  }

  /** The pieces of `s` between occurrences of `sep`, empty ones included (one more piece than separators). */
  function SplitAll(s: string, sep: char): (r: seq<string>)
    ensures |r| >= 1
  {
    if s == [] then [[]]
    else if s[0] == sep then [[]] + SplitAll(s[1..], sep)
    else
      var t := SplitAll(s[1..], sep);
      [[s[0]] + t[0]] + t[1..]
  }

  /** The pieces joined back with `sep` between them: the inverse of SplitAll. */
  function Join(pieces: seq<string>, sep: char): string
  {
    if |pieces| == 0 then []
    else if |pieces| == 1 then pieces[0]
    else pieces[0] + [sep] + Join(pieces[1..], sep)
  }

  /** Drops the empty pieces at the end, as split() with no limit does. */
  function DropTrailingEmpty(pieces: seq<string>): (r: seq<string>)
    ensures |r| <= |pieces| && r == pieces[..|r|]
    ensures r == [] || r[|r| - 1] != []
    ensures forall k :: |r| <= k < |pieces| ==> pieces[k] == []
  {
    if pieces == [] || pieces[|pieces| - 1] != [] then pieces
    else DropTrailingEmpty(pieces[..|pieces| - 1])
  }

  /** String.split(sep) for a one-character separator that is not a regex metacharacter. */
  function Split(s: string, sep: char): (r: seq<string>)
    ensures sep in s ==> r == [] || r[|r| - 1] != []
  {
    if sep !in s then [s] else DropTrailingEmpty(SplitAll(s, sep))
  }

  /** Splitting and joining again gives back the input. */
  lemma {:induction false} JoinSplitAll(s: string, sep: char)
    ensures Join(SplitAll(s, sep), sep) == s
  {
    if s == [] {
    } else if s[0] == sep {
      JoinSplitAll(s[1..], sep);
      assert s == [sep] + s[1..];
    } else {
      var t := SplitAll(s[1..], sep);
      JoinSplitAll(s[1..], sep);
      if |t| == 1 {
        assert s == [s[0]] + s[1..];
      } else {
        assert t == [t[0]] + t[1..];
        assert Join(t, sep) == t[0] + [sep] + Join(t[1..], sep);
        assert s == [s[0]] + s[1..];
      }
    }
  }

  /** Every character of every piece is a character of `s` other than the separator. */
  lemma {:induction false} SplitAllPieces(s: string, sep: char, k: nat, j: nat)
    requires k < |SplitAll(s, sep)| && j < |SplitAll(s, sep)[k]|
    ensures SplitAll(s, sep)[k][j] in s && SplitAll(s, sep)[k][j] != sep
  {
    if s == [] {
    } else if s[0] == sep {
      SplitAllPieces(s[1..], sep, k - 1, j);
    } else {
      var t := SplitAll(s[1..], sep);
      if k == 0 {
        if j > 0 {
          SplitAllPieces(s[1..], sep, 0, j - 1);
        }
      } else {
        SplitAllPieces(s[1..], sep, k, j);
      }
    }
  }

  /** Joining pieces followed by `m` empty pieces appends `m` separators. */
  lemma {:induction false} JoinTrailingEmpty(pieces: seq<string>, m: nat, sep: char)
    requires |pieces| >= 1
    ensures Join(pieces + seq(m, _ => []), sep) == Join(pieces, sep) + seq(m, _ => sep)
    decreases |pieces| + m
  {
    if m == 0 {
      assert pieces + seq(m, _ => []) == pieces;
    } else if |pieces| == 1 {
      var tail: seq<string> := seq(m, _ => []);
      var rest: seq<string> := seq(m - 1, _ => []);
      assert (pieces + tail)[1..] == [[]] + rest;
      JoinTrailingEmpty([[]], m - 1, sep);
      assert [[]] + rest == [[]] + seq(m - 1, _ => []);
      assert Join(pieces + tail, sep) == pieces[0] + [sep] + Join([[]] + rest, sep);
      assert seq(m, _ => sep) == [sep] + seq(m - 1, _ => sep);
    } else {
      var tail: seq<string> := seq(m, _ => []);
      assert (pieces + tail)[1..] == pieces[1..] + tail;
      JoinTrailingEmpty(pieces[1..], m, sep);
    }
  }

  /** Joining only empty pieces gives one separator fewer than there are pieces. */
  lemma {:induction false} JoinAllEmpty(m: nat, sep: char)
    requires m >= 1
    ensures Join(seq(m, _ => []), sep) == seq(m - 1, _ => sep)
  {
    if m > 1 {
      var e: seq<string> := seq(m, _ => []);
      assert e[1..] == seq(m - 1, _ => []);
      JoinAllEmpty(m - 1, sep);
      assert seq(m - 1, _ => sep) == [sep] + seq(m - 2, _ => sep);
    }
  }

  /**
   * What split(sep) keeps of `s`: the pieces joined back with `sep` are a
   * prefix of `s`, and everything after that prefix is separators; no piece
   * holds the separator or any character that `s` does not hold.
   */
  lemma SplitShape(s: string, sep: char)
    ensures var r := Split(s, sep);
      && |Join(r, sep)| <= |s| && s[..|Join(r, sep)|] == Join(r, sep)
      && (forall k :: |Join(r, sep)| <= k < |s| ==> s[k] == sep)
      && (forall k, j :: 0 <= k < |r| && 0 <= j < |r[k]| ==> r[k][j] in s && r[k][j] != sep)
  {
    SplitJoinPrefix(s, sep);
    SplitPieces(s, sep);
  }

  /** The pieces split(sep) keeps, joined back, are `s` without its trailing separators. */
  lemma SplitJoinPrefix(s: string, sep: char)
    ensures var r := Split(s, sep);
      && |Join(r, sep)| <= |s| && s[..|Join(r, sep)|] == Join(r, sep)
      && (forall k :: |Join(r, sep)| <= k < |s| ==> s[k] == sep)
  {
    if sep in s {
      var r := Split(s, sep);
      var all := SplitAll(s, sep);
      var m := |all| - |r|;
      var n := if r == [] then m - 1 else m;
      assert s == Join(r, sep) + seq(n, _ => sep) by {
        JoinSplitAll(s, sep);
        assert all == r + seq(m, _ => []);
        JoinKept(r, m, sep);
      }
      PrefixThenSeparators(s, Join(r, sep), n, sep);
    }
  }

  /** Joining pieces followed by `m` empty pieces, whether or not there are other pieces. */
  lemma JoinKept(r: seq<string>, m: nat, sep: char)
    requires r != [] || m >= 1
    ensures Join(r + seq(m, _ => []), sep) == Join(r, sep) + seq(if r == [] then m - 1 else m, _ => sep)
  {
    if r == [] {
      assert r + seq(m, _ => []) == seq(m, _ => []);
      JoinAllEmpty(m, sep);
    } else {
      JoinTrailingEmpty(r, m, sep);
    }
  }

  lemma PrefixThenSeparators(s: string, front: string, m: nat, sep: char)
    requires s == front + seq(m, _ => sep)
    ensures |front| <= |s| && s[..|front|] == front
    ensures forall k :: |front| <= k < |s| ==> s[k] == sep
  {
  }

  /** No piece split(sep) keeps holds the separator or a character that `s` does not hold. */
  lemma SplitPieces(s: string, sep: char)
    ensures var r := Split(s, sep);
      forall k, j :: 0 <= k < |r| && 0 <= j < |r[k]| ==> r[k][j] in s && r[k][j] != sep
  {
    var r := Split(s, sep);
    if sep in s {
      forall k, j | 0 <= k < |r| && 0 <= j < |r[k]| ensures r[k][j] in s && r[k][j] != sep {
        SplitAllPieces(s, sep, k, j);
      }
    }
  }

  function DigitChar(d: nat): (c: char)
    requires d < 10
  {
    ('0' as int + d) as char
  }

  function DigitValue(c: char): (d: nat)
    ensures d < 10
  {
    if '0' <= c <= '9' then (c as int - '0' as int) else 0
  }

  /** The decimal digits of `n`, most significant first, with no leading zeros. */
  function NaturalString(n: nat): (r: string)
    ensures |r| >= 1
    ensures forall k :: 0 <= k < |r| ==> '0' <= r[k] <= '9'
    decreases n
  {
    if n < 10 then [DigitChar(n)] else NaturalString(n / 10) + [DigitChar(n % 10)]
  }

  /** String.valueOf(int): an optional minus sign followed by the digits. */
  function DecimalString(n: int): (r: string)
    ensures |r| >= 1 && (r[0] == '-' || '0' <= r[0] <= '9')
    ensures forall k :: 1 <= k < |r| ==> '0' <= r[k] <= '9'
  {
    if n < 0 then "-" + NaturalString(-n) else NaturalString(n)
  }

  /** The value of a string of decimal digits. */
  function ParseNatural(s: string): nat
  {
    if s == [] then 0 else 10 * ParseNatural(s[..|s| - 1]) + DigitValue(s[|s| - 1])
  }

  /** Integer.parseInt restricted to what DecimalString produces. */
  function ParseDecimal(s: string): int
  {
    if |s| > 0 && s[0] == '-' then -(ParseNatural(s[1..]) as int) else ParseNatural(s)
  }

  lemma {:induction false} ParseNaturalString(n: nat)
    ensures ParseNatural(NaturalString(n)) == n
    decreases n
  {
    var s := NaturalString(n);
    if n >= 10 {
      var q, d := n / 10, n % 10;
      ParseNaturalString(q);
      assert s == NaturalString(q) + [DigitChar(d)];
      assert s[..|s| - 1] == NaturalString(q);
      assert DigitValue(s[|s| - 1]) == d;
      assert n == 10 * q + d;
    }
  }

  /** Decimal printing loses nothing: parsing gives the number back. */
  lemma DecimalRoundTrip(n: int)
    ensures ParseDecimal(DecimalString(n)) == n
  {
    if n < 0 {
      ParseNaturalString(-n);
      assert DecimalString(n)[1..] == NaturalString(-n);
    } else {
      ParseNaturalString(n);
    }
  }

  /** Different numbers print differently. */
  lemma DecimalInjective(a: int, b: int)
    requires DecimalString(a) == DecimalString(b)
    ensures a == b
  {
    DecimalRoundTrip(a);
    DecimalRoundTrip(b);
  }
}
