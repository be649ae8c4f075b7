/**
 The Python `str` built-ins the resume analyzer relies on, defined on
 `seq<char>` with CPython's semantics:

 - `s.strip()`      removes leading and trailing Unicode whitespace;
 - `s.strip('|')`   removes leading and trailing `'|'` characters;
 - `s.split(c)`     cuts at every occurrence of the one-character separator `c`
                    and always yields at least one piece;
 - `sep.join(xs)`   concatenates `xs` with `sep` between neighbours.
 */
module PyStr {

  /** The characters `str.strip()` with no argument removes: CPython's
      `Py_UNICODE_ISSPACE` set. */
  predicate IsSpace(c: char) {
    var n := c as int;
    (0x09 <= n <= 0x0D) || (0x1C <= n <= 0x20) || n == 0x85 || n == 0xA0 ||
    n == 0x1680 || (0x2000 <= n <= 0x200A) || n == 0x2028 || n == 0x2029 ||
    n == 0x202F || n == 0x205F || n == 0x3000
  }

  predicate IsPipe(c: char) {
    c == '|'
  }

  /** Every character of `s` is one that `drop` removes. */
  ghost predicate AllDropped(s: string, drop: char -> bool) {
    forall k :: 0 <= k < |s| ==> drop(s[k])
  }

  /** `s` neither starts nor ends with a character that `drop` removes. */
  ghost predicate Trimmed(s: string, drop: char -> bool) {
    s == [] || (!drop(s[0]) && !drop(s[|s| - 1]))
  }

  /** Removes the longest prefix of characters that `drop` removes. */
  function LStrip(s: string, drop: char -> bool): (r: string)
    ensures |r| <= |s|
    decreases |s|
  {
    if s != [] && drop(s[0]) then LStrip(s[1..], drop) else s
  }

  /** Removes the longest suffix of characters that `drop` removes. */
  function RStrip(s: string, drop: char -> bool): (r: string)
    ensures |r| <= |s|
    decreases |s|
  {
    if s != [] && drop(s[|s| - 1]) then RStrip(s[..|s| - 1], drop) else s
  }

  /** CPython's `do_strip`/`do_xstrip` with both ends: left side first, then
      the right side of what is left. */
  function StripBy(s: string, drop: char -> bool): (r: string)
    ensures |r| <= |s|
  {
    RStrip(LStrip(s, drop), drop)
  }

  /** Python `s.strip()`. */
  function Strip(s: string): (r: string)
  {
    StripBy(s, IsSpace)
  }

  /** Python `s.strip('|')`. */
  function StripPipes(s: string): (r: string)
  {
    StripBy(s, IsPipe)
  }

  /** `LStrip` removes a prefix of removable characters and stops at a kept
      character or at the end. */
  lemma {:induction false} LStripSplits(s: string, drop: char -> bool) returns (a: string)
    ensures s == a + LStrip(s, drop) && AllDropped(a, drop)
    ensures LStrip(s, drop) == [] || !drop(LStrip(s, drop)[0])
    decreases |s|
  {
    if s != [] && drop(s[0]) {
      var a' := LStripSplits(s[1..], drop);
      a := [s[0]] + a';
      assert s == [s[0]] + s[1..];
      assert a + LStrip(s, drop) == [s[0]] + (a' + LStrip(s[1..], drop));
      forall k | 0 <= k < |a| ensures drop(a[k]) {
        if k > 0 { assert a[k] == a'[k - 1]; }
      }
    } else {
      a := [];
      assert s == [] + s;
    }
  }

  /** `RStrip` removes a suffix of removable characters and stops at a kept
      character or at the start. */
  lemma {:induction false} RStripSplits(s: string, drop: char -> bool) returns (b: string)
    ensures s == RStrip(s, drop) + b && AllDropped(b, drop)
    ensures RStrip(s, drop) == [] || !drop(RStrip(s, drop)[|RStrip(s, drop)| - 1])
    decreases |s|
  {
    if s != [] && drop(s[|s| - 1]) {
      var init := s[..|s| - 1];
      var last := s[|s| - 1];
      var b' := RStripSplits(init, drop);
      b := b' + [last];
      assert s == init + [last];
      assert RStrip(s, drop) + b == (RStrip(init, drop) + b') + [last];
      forall k | 0 <= k < |b| ensures drop(b[k]) {
        if k < |b'| { assert b[k] == b'[k]; }
      }
    } else {
      b := [];
      assert s == s + [];
    }
  }

  /** Every string splits into a removable prefix, its strip and a removable
      suffix, and the strip neither starts nor ends with a removable
      character. */
  lemma StripByDecomposes(s: string, drop: char -> bool) returns (a: string, b: string)
    ensures s == a + StripBy(s, drop) + b
    ensures AllDropped(a, drop) && AllDropped(b, drop)
    ensures Trimmed(StripBy(s, drop), drop)
  {
    var l := LStrip(s, drop);
    var r := RStrip(l, drop);
    a := LStripSplits(s, drop);
    b := RStripSplits(l, drop);
    assert s == a + r + b by {
      assert s == a + (r + b);
    }
    if r != [] {
      assert r[0] == l[0];
    }
  }

  /** The strip is trimmed and holds only characters of the original. */
  lemma StripByInside(s: string, drop: char -> bool)
    ensures Trimmed(StripBy(s, drop), drop)
    ensures forall c :: c in StripBy(s, drop) ==> c in s
  {
    var m := StripBy(s, drop);
    var a, b := StripByDecomposes(s, drop);
    forall c | c in m ensures c in s {
      var k :| 0 <= k < |m| && m[k] == c;
      assert s[|a| + k] == c;
    }
  }

  /** Prepending removable characters does not change what `LStrip` keeps. */
  lemma {:induction false} LStripDroppedPrefix(a: string, t: string, drop: char -> bool)
    requires AllDropped(a, drop)
    ensures LStrip(a + t, drop) == LStrip(t, drop)
    decreases |a|
  {
    if a != [] {
      assert drop((a + t)[0]) by { assert (a + t)[0] == a[0]; }
      assert (a + t)[1..] == a[1..] + t;
      assert LStrip(a + t, drop) == LStrip(a[1..] + t, drop);
      assert AllDropped(a[1..], drop) by {
        forall k | 0 <= k < |a[1..]| ensures drop(a[1..][k]) { assert a[1..][k] == a[k + 1]; }
      }
      LStripDroppedPrefix(a[1..], t, drop);
    } else {
      assert a + t == t;
    }
  }

  /** Appending removable characters does not change what `RStrip` keeps. */
  lemma {:induction false} RStripDroppedSuffix(t: string, b: string, drop: char -> bool)
    requires AllDropped(b, drop)
    ensures RStrip(t + b, drop) == RStrip(t, drop)
    decreases |b|
  {
    if b != [] {
      assert drop((t + b)[|t + b| - 1]) by { assert (t + b)[|t + b| - 1] == b[|b| - 1]; }
      assert (t + b)[..|t + b| - 1] == t + b[..|b| - 1];
      assert AllDropped(b[..|b| - 1], drop) by {
        var b' := b[..|b| - 1];
        forall k | 0 <= k < |b'| ensures drop(b'[k]) { assert b'[k] == b[k]; }
      }
      assert RStrip(t + b, drop) == RStrip(t + b[..|b| - 1], drop);
      RStripDroppedSuffix(t, b[..|b| - 1], drop);
    } else {
      assert t + b == t;
    }
  }

  /** The strip is determined by what it is: whatever sits between a removable
      prefix and a removable suffix, and is itself trimmed, is the result. */
  lemma StripByUnique(a: string, m: string, b: string, drop: char -> bool)
    requires AllDropped(a, drop) && AllDropped(b, drop) && Trimmed(m, drop)
    ensures StripBy(a + m + b, drop) == m
  {
    assert a + m + b == a + (m + b);
    LStripDroppedPrefix(a, m + b, drop);
    if m == [] {
      assert m + b == b + [];
      LStripDroppedPrefix(b, [], drop);
    } else {
      assert LStrip(m + b, drop) == m + b;
      RStripDroppedSuffix(m, b, drop);
    }
  }

  /** Stripping removable characters off the ends of any text gives the same
      result as stripping the text alone. */
  lemma StripByWrapped(a: string, s: string, b: string, drop: char -> bool)
    requires AllDropped(a, drop) && AllDropped(b, drop)
    ensures StripBy(a + s + b, drop) == StripBy(s, drop)
  {
    var m := StripBy(s, drop);
    var x, y := StripByDecomposes(s, drop);
    AllDroppedConcat(a, x, drop);
    AllDroppedConcat(y, b, drop);
    calc {
      a + s + b;
      a + (x + m + y) + b;
      (a + x) + m + y + b;
      (a + x) + m + (y + b);
    }
    StripByUnique(a + x, m, y + b, drop);
  }

  /** A slice of the middle part of `h + m + t`, counted from the start of `m`. */
  lemma SliceOfMiddle(h: string, m: string, t: string, o: nat, n: nat)
    requires o + n <= |m|
    ensures |h| + o + n <= |h + m + t|
    ensures (h + m + t)[|h| + o..|h| + o + n] == m[o..o + n]
  {
    var whole := h + m + t;
    assert whole == h + (m + t);
    assert whole[|h|..] == m + t;
    assert whole[|h| + o..|h| + o + n] == whole[|h|..][o..o + n];
    assert (m + t)[o..o + n] == m[o..o + n];
  }

  lemma AllDroppedConcat(x: string, y: string, drop: char -> bool)
    requires AllDropped(x, drop) && AllDropped(y, drop)
    ensures AllDropped(x + y, drop)
  {
    forall k | 0 <= k < |x + y| ensures drop((x + y)[k]) {
      if k < |x| { assert (x + y)[k] == x[k]; } else { assert (x + y)[k] == y[k - |x|]; }
    }
  }

  /** `strip` is idempotent. */
  lemma StripByIdempotent(s: string, drop: char -> bool)
    ensures StripBy(StripBy(s, drop), drop) == StripBy(s, drop)
  {
    var m := StripBy(s, drop);
    StripByInside(s, drop);
    assert [] + m + [] == m;
    StripByUnique([], m, [], drop);
  }

  /** A text made only of removable characters strips to the empty string. */
  lemma StripByAllDropped(s: string, drop: char -> bool)
    requires AllDropped(s, drop)
    ensures StripBy(s, drop) == []
  {
    assert s + [] + [] == s;
    StripByUnique(s, [], [], drop);
  }

  /** Number of occurrences of `c` in `s`. */
  function Count(s: string, c: char): (n: nat)
  {
    if s == [] then 0 else (if s[0] == c then 1 else 0) + Count(s[1..], c)
  }

  /** Python `s.split(sep)` for a one-character separator. It never returns
      an empty list. */
  function Split(s: string, sep: char): (pieces: seq<string>)
    ensures |pieces| >= 1
    decreases |s|
  {
    if s == [] then [""]
    else
      var rest := Split(s[1..], sep);
      if s[0] == sep then [""] + rest
      else [[s[0]] + rest[0]] + rest[1..]
  }

  /** There is one piece more than there are separators. */
  lemma {:induction false} SplitCount(s: string, sep: char)
    ensures |Split(s, sep)| == 1 + Count(s, sep)
    decreases |s|
  {
    if s != [] {
      SplitCount(s[1..], sep);
    }
  }

  /** No piece contains the separator. */
  lemma {:induction false} SplitPiecesNoSep(s: string, sep: char)
    ensures forall i :: 0 <= i < |Split(s, sep)| ==> sep !in Split(s, sep)[i]
    decreases |s|
  {
    if s != [] {
      SplitPiecesNoSep(s[1..], sep);
      var rest := Split(s[1..], sep);
      if s[0] != sep {
        assert sep !in [s[0]] + rest[0];
      }
    }
  }

  /** Python `sep.join(xs)`. */
  function Join(sep: string, xs: seq<string>): (r: string)
    decreases |xs|
  {
    if |xs| == 0 then ""
    else if |xs| == 1 then xs[0]
    else xs[0] + sep + Join(sep, xs[1..])
  }

  /** Sum of the lengths of `xs`. */
  function TotalLength(xs: seq<string>): (n: nat)
  {
    if xs == [] then 0 else |xs[0]| + TotalLength(xs[1..])
  }

  /** The joined text is as long as the pieces plus one separator between
      each pair of neighbours. */
  lemma {:induction false} JoinLength(sep: string, xs: seq<string>)
    requires |xs| >= 1
    ensures |Join(sep, xs)| == TotalLength(xs) + (|xs| - 1) * |sep|
    decreases |xs|
  {
    if |xs| > 1 {
      JoinLength(sep, xs[1..]);
      assert (|xs| - 1) * |sep| == (|xs| - 2) * |sep| + |sep|;
    }
  }

  /** Where piece `i` begins in `Join(sep, xs)`. */
  function Offset(sep: string, xs: seq<string>, i: nat): (at: nat)
    requires i <= |xs|
  {
    TotalLength(xs[..i]) + i * |sep|
  }

  /** Piece `i` appears, unchanged, at its offset in the joined text: the
      join keeps the pieces and their order. */
  lemma {:induction false} JoinAt(sep: string, xs: seq<string>, i: nat)
    requires i < |xs|
    ensures Offset(sep, xs, i) + |xs[i]| <= |Join(sep, xs)|
    ensures Join(sep, xs)[Offset(sep, xs, i)..Offset(sep, xs, i) + |xs[i]|] == xs[i]
    decreases |xs|
  {
    var r := Join(sep, xs);
    JoinLength(sep, xs);
    if i == 0 {
      assert Offset(sep, xs, 0) == 0 by {
        assert xs[..0] == [];
      }
      var rest := if |xs| > 1 then sep + Join(sep, xs[1..]) else "";
      assert r == [] + xs[0] + rest;
      SliceOfMiddle([], xs[0], rest, 0, |xs[0]|);
    } else {
      var tail := xs[1..];
      var o := Offset(sep, tail, i - 1);
      JoinAt(sep, tail, i - 1);
      assert Offset(sep, xs, i) == |xs[0] + sep| + o by {
        assert xs[..i][1..] == tail[..i - 1];
      }
      assert r == (xs[0] + sep) + Join(sep, tail) + [];
      SliceOfMiddle(xs[0] + sep, Join(sep, tail), [], o, |tail[i - 1]|);
    }
  }

  /** With two or more pieces, the joined text starts with the first piece
      and a separator, and ends with a separator and the last piece. */
  lemma {:induction false} JoinEnds(sep: string, xs: seq<string>) returns (p: string, q: string)
    requires |xs| >= 2
    ensures Join(sep, xs) == xs[0] + sep + q
    ensures Join(sep, xs) == p + sep + xs[|xs| - 1]
    decreases |xs|
  {
    q := Join(sep, xs[1..]);
    if |xs| == 2 {
      p := xs[0];
    } else {
      var p', _ := JoinEnds(sep, xs[1..]);
      p := xs[0] + sep + p';
      calc {
        Join(sep, xs);
        xs[0] + sep + (p' + sep + xs[|xs| - 1]);
        p + sep + xs[|xs| - 1];
      }
    }
  }

  /** Joining the pieces of a split gives back the original text. */
  lemma {:induction false} JoinSplit(s: string, sep: char)
    ensures Join([sep], Split(s, sep)) == s
    decreases |s|
  {
    if s != [] {
      var rest := Split(s[1..], sep);
      JoinSplit(s[1..], sep);
      if s[0] == sep {
        assert Join([sep], [""] + rest) == "" + [sep] + Join([sep], rest);
      } else if |rest| == 1 {
      } else {
        var pieces := [[s[0]] + rest[0]] + rest[1..];
        assert pieces[1..] == rest[1..];
        assert Join([sep], rest) == rest[0] + [sep] + Join([sep], rest[1..]);
      }
    }
  }

  /** A text without the separator splits into itself. */
  lemma {:induction false} SplitNoSep(x: string, sep: char)
    requires sep !in x
    ensures Split(x, sep) == [x]
    decreases |x|
  {
    if x != [] {
      SplitNoSep(x[1..], sep);
      assert [x[0]] + x[1..] == x;
    }
  }

  /** Splitting `x + [sep] + t`, where `x` holds no separator, yields `x`
      followed by the pieces of `t`. */
  lemma {:induction false} SplitAfterPiece(x: string, t: string, sep: char)
    requires sep !in x
    ensures Split(x + [sep] + t, sep) == [x] + Split(t, sep)
    decreases |x|
  {
    if x == [] {
      assert x + [sep] + t == [sep] + t;
      assert ([sep] + t)[1..] == t;
    } else {
      var s := x + [sep] + t;
      assert s[1..] == x[1..] + [sep] + t;
      SplitAfterPiece(x[1..], t, sep);
      assert [x[0]] + x[1..] == x;
    }
  }

  /** Splitting a join gives back the pieces, provided no piece contains the
      separator and there is at least one piece (Python's `split` never
      returns an empty list). */
  lemma {:induction false} SplitJoin(xs: seq<string>, sep: char)
    requires |xs| >= 1
    requires forall i :: 0 <= i < |xs| ==> sep !in xs[i]
    ensures Split(Join([sep], xs), sep) == xs
    decreases |xs|
  {
    if |xs| == 1 {
      SplitNoSep(xs[0], sep);
    } else {
      SplitJoin(xs[1..], sep);
      SplitAfterPiece(xs[0], Join([sep], xs[1..]), sep);
    }
  }
}
