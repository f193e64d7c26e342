// The few Python `str` operations the scraper relies on: `isspace`/`strip`,
// single-character `replace`, `split` on one character and `join`, and the
// last piece of `split(sep)` for a multi-character separator.

module Wrappers {
  datatype Option<+T> = None | Some(value: T)
}

module PyStr {

  /** Python 3's `str.isspace` for one code point: the characters `strip()`
      removes when called without arguments. */
  predicate IsSpace(c: char)
  {
    ('\t' <= c <= '\r') || ('\U{1C}' <= c <= '\U{1F}') || c == ' ' ||
    c == '\U{85}' || c == '\U{A0}' || c == '\U{1680}' ||
    ('\U{2000}' <= c <= '\U{200A}') || c == '\U{2028}' || c == '\U{2029}' ||
    c == '\U{202F}' || c == '\U{205F}' || c == '\U{3000}'
  }

  /** A string with no whitespace at either end. */
  predicate Trimmed(s: string)
  {
    |s| == 0 || (!IsSpace(s[0]) && !IsSpace(s[|s| - 1]))
  }

  /** Number of leading whitespace characters. */
  function LeadingSpaces(s: string): (n: nat)
    ensures n <= |s|
    ensures forall k :: 0 <= k < n ==> IsSpace(s[k])
    ensures n < |s| ==> !IsSpace(s[n])
  {
    if |s| > 0 && IsSpace(s[0]) then 1 + LeadingSpaces(s[1..]) else 0
  }

  /** Length of `s` once its trailing whitespace is cut off. */
  function TrailingCut(s: string): (n: nat)
    ensures n <= |s|
    ensures forall k :: n <= k < |s| ==> IsSpace(s[k])
    ensures n > 0 ==> !IsSpace(s[n - 1])
  {
    if |s| > 0 && IsSpace(s[|s| - 1]) then TrailingCut(s[..|s| - 1]) else |s|
  }

  /** `s.strip()`. */
  function Strip(s: string): (r: string)
    ensures Trimmed(r)
    ensures LeadingSpaces(s) + |r| <= |s|
    ensures r == s[LeadingSpaces(s)..LeadingSpaces(s) + |r|]
    ensures forall k :: LeadingSpaces(s) + |r| <= k < |s| ==> IsSpace(s[k])
  {
    var t := s[LeadingSpaces(s)..];
    t[..TrailingCut(t)]
  }

  lemma StripOfTrimmed(s: string)
    requires Trimmed(s)
    ensures Strip(s) == s
  {
    if |s| > 0 {
      assert LeadingSpaces(s) == 0;
      assert TrailingCut(s) == |s|;
    }
  }

  /** Every character `strip` keeps was in its argument. */
  lemma StripChars(s: string, c: char)
    requires c in Strip(s)
    ensures c in s
  {
    var i := LeadingSpaces(s);
    var k :| 0 <= k < |Strip(s)| && Strip(s)[k] == c;
    assert s[i + k] == c;
  }

  /** `s.replace(c, r)` for a one-character pattern `c`. */
  function ReplaceChar(s: string, c: char, r: string): (t: string)
    ensures c !in r ==> c !in t
    ensures forall d :: d in t ==> d in r || (d in s && d != c)
    ensures forall d :: d in s && d != c ==> d in t
  {
    if |s| == 0 then ""
    else (if s[0] == c then r else [s[0]]) + ReplaceChar(s[1..], c, r)
  }

  /** Replacing a character that does not occur changes nothing. */
  lemma {:induction false} ReplaceAbsent(s: string, c: char, r: string)
    requires c !in s
    ensures ReplaceChar(s, c, r) == s
  {
    if |s| > 0 {
      assert s == [s[0]] + s[1..];
      ReplaceAbsent(s[1..], c, r);
    }
  }

  /** `replace` works piece by piece: the pieces of a concatenation are
      replaced independently. */
  lemma {:induction false} ReplaceCharConcat(a: string, b: string, c: char, r: string)
    ensures ReplaceChar(a + b, c, r) == ReplaceChar(a, c, r) + ReplaceChar(b, c, r)
  {
    if |a| > 0 {
      assert (a + b)[0] == a[0];
      assert (a + b)[1..] == a[1..] + b;
      ReplaceCharConcat(a[1..], b, c, r);
    } else {
      assert a + b == b;
    }
  }

  /** A single character becomes the replacement when it is the pattern, and
      stays as it is otherwise. */
  lemma ReplaceCharOne(x: char, c: char, r: string)
    ensures ReplaceChar([x], c, r) == if x == c then r else [x]
  {
    assert [x][1..] == "";
  }

  /** Replacing a character by a single character works position by position. */
  lemma {:induction false} ReplaceCharPointwise(s: string, c: char, d: char)
    ensures |ReplaceChar(s, c, [d])| == |s|
    ensures forall i :: 0 <= i < |s| ==> ReplaceChar(s, c, [d])[i] == if s[i] == c then d else s[i]
  {
    if |s| > 0 {
      ReplaceCharPointwise(s[1..], c, d);
    }
  }

  /** Index of the first occurrence of `c` in `s`. */
  function IndexOf(s: string, c: char): (k: nat)
    requires c in s
    ensures k < |s| && s[k] == c && c !in s[..k]
  {
    if s[0] == c then 0 else 1 + IndexOf(s[1..], c)
  }

  /** `s.split(c)` for a one-character separator: always at least one piece. */
  function Split(s: string, c: char): (pieces: seq<string>)
    ensures |pieces| >= 1
    ensures forall i :: 0 <= i < |pieces| ==> c !in pieces[i]
    decreases |s|
  {
    if c !in s then [s]
    else
      var k := IndexOf(s, c);
      [s[..k]] + Split(s[k + 1..], c)
  }

  /** `c.join(pieces)`. */
  function Join(pieces: seq<string>, c: char): string
  {
    if |pieces| == 0 then ""
    else if |pieces| == 1 then pieces[0]
    else pieces[0] + [c] + Join(pieces[1..], c)
  }

  /** Joining the pieces of a split restores the string. */
  lemma {:induction false} JoinSplit(s: string, c: char)
    ensures Join(Split(s, c), c) == s
    decreases |s|
  {
    if c in s {
      var k := IndexOf(s, c);
      var tail := Split(s[k + 1..], c);
      JoinSplit(s[k + 1..], c);
      SplitAtFirst(s, c);
      JoinCons(s[..k], tail, c);
      assert s == s[..k] + [c] + s[k + 1..];
    }
  }

  lemma SplitAtFirst(s: string, c: char)
    requires c in s
    ensures Split(s, c) == [s[..IndexOf(s, c)]] + Split(s[IndexOf(s, c) + 1..], c)
  {
    var k := IndexOf(s, c);
    var pieces := [s[..k]] + Split(s[k + 1..], c);
    assert Split(s, c) == pieces;
  }

  lemma JoinCons(head: string, tail: seq<string>, c: char)
    requires |tail| >= 1
    ensures Join([head] + tail, c) == head + [c] + Join(tail, c)
  {
    assert ([head] + tail)[0] == head;
    assert ([head] + tail)[1..] == tail;
  }

  /** Splitting a join of separator-free pieces gives the pieces back. */
  lemma {:induction false} SplitJoin(pieces: seq<string>, c: char)
    requires |pieces| >= 1
    requires forall i :: 0 <= i < |pieces| ==> c !in pieces[i]
    ensures Split(Join(pieces, c), c) == pieces
  {
    if |pieces| > 1 {
      var rest := Join(pieces[1..], c);
      var s := pieces[0] + [c] + rest;
      assert IndexOf(s, c) == |pieces[0]| by {
        assert s[|pieces[0]|] == c;
        assert s[..|pieces[0]|] == pieces[0];
        IndexOfFirst(s, c, |pieces[0]|);
      }
      assert s[|pieces[0]| + 1..] == rest;
      SplitJoin(pieces[1..], c);
    }
  }

  lemma IndexOfFirst(s: string, c: char, k: nat)
    requires k < |s| && s[k] == c && c !in s[..k]
    ensures IndexOf(s, c) == k
  {
  }

  /** Every character of a join is the separator or comes from some piece. */
  lemma {:induction false} JoinChars(pieces: seq<string>, c: char, d: char)
    requires d in Join(pieces, c)
    ensures d == c || exists i :: 0 <= i < |pieces| && d in pieces[i]
  {
    if |pieces| > 1 {
      if d !in pieces[0] && d != c {
        JoinChars(pieces[1..], c, d);
        var i :| 0 <= i < |pieces[1..]| && d in pieces[1..][i];
        assert d in pieces[i + 1];
      }
    }
  }

  /** `sep` occurs in `s` starting at index `j`. */
  predicate OccursAt(s: string, sep: string, j: nat)
  {
    j + |sep| <= |s| && forall m :: 0 <= m < |sep| ==> s[j + m] == sep[m]
  }

  /** Start of the last piece of `s.split(sep)`: Python scans left to right
      and cuts at every non-overlapping occurrence of `sep`; `last` is where
      the current piece began and `i` the next position to test. */
  function LastPieceStart(s: string, sep: string, i: nat, last: nat): (k: nat)
    requires |sep| > 0 && last <= i <= |s|
    ensures last <= k <= |s|
    decreases |s| - i
  {
    if i + |sep| > |s| then last
    else if OccursAt(s, sep, i) then LastPieceStart(s, sep, i + |sep|, i + |sep|)
    else LastPieceStart(s, sep, i + 1, last)
  }

  /** The scan ends at the start of the text or just after an occurrence of
      `sep`, and no occurrence of `sep` begins at or after that point. */
  lemma {:induction false} LastPieceStartCuts(s: string, sep: string, i: nat, last: nat)
    requires |sep| > 0 && last <= i <= |s|
    requires last == 0 || (|sep| <= last && OccursAt(s, sep, last - |sep|))
    requires forall j :: last <= j < i ==> !OccursAt(s, sep, j)
    ensures var k := LastPieceStart(s, sep, i, last);
            (k == 0 || (|sep| <= k && OccursAt(s, sep, k - |sep|))) &&
            forall j :: k <= j ==> !OccursAt(s, sep, j)
    decreases |s| - i
  {
    if i + |sep| > |s| {
      assert LastPieceStart(s, sep, i, last) == last;
    } else if OccursAt(s, sep, i) {
      assert LastPieceStart(s, sep, i, last) == LastPieceStart(s, sep, i + |sep|, i + |sep|);
      assert i + |sep| - |sep| == i;
      LastPieceStartCuts(s, sep, i + |sep|, i + |sep|);
    } else {
      assert LastPieceStart(s, sep, i, last) == LastPieceStart(s, sep, i + 1, last);
      LastPieceStartCuts(s, sep, i + 1, last);
    }
  }

  /** `s.split(sep)[-1]`: the text after the last occurrence of `sep`, or
      the whole of `s` when there is none. */
  function LastPiece(s: string, sep: string): (r: string)
    requires |sep| > 0
    ensures |r| <= |s| && r == s[|s| - |r|..]
    ensures |r| < |s| ==> |sep| <= |s| - |r| && OccursAt(s, sep, |s| - |r| - |sep|)
    ensures forall j: nat :: !OccursAt(r, sep, j)
  {
    var k := LastPieceStart(s, sep, 0, 0);
    LastPieceStartCuts(s, sep, 0, 0);
    var r := s[k..];
    forall j: nat ensures !OccursAt(r, sep, j) {
      if OccursAt(r, sep, j) {
        OccursInSuffix(s, sep, k, j);
      }
    }
    r
  }

  lemma OccursInSuffix(s: string, sep: string, k: nat, j: nat)
    requires k <= |s| && OccursAt(s[k..], sep, j)
    ensures OccursAt(s, sep, k + j)
  {
    forall m | 0 <= m < |sep| ensures s[k + j + m] == sep[m] {
      assert s[k..][j + m] == s[k + j + m];
    }
  }
}
