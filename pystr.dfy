/** The Python `str` operations the error reporter is built from, on strings
    taken as sequences of code points. */
module PyStr {

  // ---------------------------------------------------------------------------
  // Slicing: s[i:j]
  // ---------------------------------------------------------------------------

  /** One slice bound normalised against a length n: a negative bound counts
      from the end, and the result is clipped into [0, n]. */
  function SliceBound(i: int, n: nat): (r: nat)
    ensures r <= n
    ensures 0 <= i <= n ==> r == i
    ensures i < 0 && -(n as int) <= i ==> r == n + i
    ensures i > n ==> r == n
    ensures i < -(n as int) ==> r == 0
  {
    if i < 0 then (if i + n < 0 then 0 else i + n)
    else if i > n then n else i
  }

  /** s[i:j] with Python's rules: never fails, an empty result when the
      normalised bounds cross. */
  function Slice<T>(s: seq<T>, i: int, j: int): (r: seq<T>)
    ensures |r| <= |s|
    ensures forall k :: 0 <= k < |r| ==> SliceBound(i, |s|) + k < |s| && r[k] == s[SliceBound(i, |s|) + k]
  {
    var a, b := SliceBound(i, |s|), SliceBound(j, |s|);
    if a < b then s[a..b] else []
  }

  /** The slice is as long as the distance between its normalised bounds, or
      empty when they cross. */
  lemma SliceLength<T>(s: seq<T>, i: int, j: int)
    ensures |Slice(s, i, j)| == if SliceBound(i, |s|) < SliceBound(j, |s|)
                                then SliceBound(j, |s|) - SliceBound(i, |s|) else 0
  {
  }

  /** With a start that is not negative and an end inside s, the slice ends at
      that end and starts at the start, or is empty when the start lies past
      the end. */
  lemma SliceTo<T>(s: seq<T>, i: int, j: int)
    requires 0 <= i && 0 <= j <= |s|
    ensures Slice(s, i, j) == s[if i <= j then i else j..j]
  {
  }

  /** With a start inside s and an end that is not negative, the slice
      starts there and runs to the end clipped to |s|, or is empty when the
      end lies before the start. */
  lemma SliceFrom<T>(s: seq<T>, i: int, j: int)
    requires 0 <= i <= |s| && 0 <= j
    ensures Slice(s, i, j) == s[i..if j < i then i else if j > |s| then |s| else j]
  {
  }

  /** Two adjacent slices make up the slice that spans both. */
  lemma SliceJoin<T>(s: seq<T>, k: int, p: int, m: int)
    requires 0 <= k <= p <= m <= |s|
    ensures s[k..p] + s[p..m] == s[k..m]
  {
  }

  /** s is what precedes index k, the element at k, and what follows it. */
  lemma SplitAtIndex<T>(s: seq<T>, k: int)
    requires 0 <= k < |s|
    ensures s == s[..k] + [s[k]] + s[k + 1..]
  {
    assert forall i :: 0 <= i < |s| ==> s[i] == (s[..k] + [s[k]] + s[k + 1..])[i];
  }

  // ---------------------------------------------------------------------------
  // s.rsplit(c, 1)[-1] and s.split(c, 1)[0]
  // ---------------------------------------------------------------------------

  /** Index of the last c among the first n elements of s, or -1 when there
      is none. */
  function LastIndex(s: string, c: char, n: nat): (r: int)
    requires n <= |s|
    ensures -1 <= r < n
  {
    if n == 0 then -1
    else if s[n - 1] == c then n - 1
    else LastIndex(s, c, n - 1)
  }

  /** LastIndex finds a c, and no c comes after it among the first n. */
  lemma {:induction false} LastIndexIsLast(s: string, c: char, n: nat)
    requires n <= |s|
    ensures LastIndex(s, c, n) >= 0 ==> s[LastIndex(s, c, n)] == c
    ensures forall k :: LastIndex(s, c, n) < k < n ==> s[k] != c
  {
    if n > 0 && s[n - 1] != c {
      LastIndexIsLast(s, c, n - 1);
    }
  }

  /** Searching the slice s[a..j] finds the last c of s before a + n, shifted
      by a, when it lies inside the slice. */
  lemma {:induction false} LastIndexInSlice(s: string, c: char, a: nat, j: nat, n: nat)
    requires a <= j <= |s| && n <= j - a
    ensures LastIndex(s[a..j], c, n)
            == if LastIndex(s, c, a + n) >= a then LastIndex(s, c, a + n) - a else -1
  {
    if n > 0 {
      assert s[a..j][n - 1] == s[a + n - 1];
      if s[a + n - 1] != c {
        LastIndexInSlice(s, c, a, j, n - 1);
      }
    }
  }

  /** Index of the first c in s at or after position from, or |s| when there
      is none. */
  function FirstIndex(s: string, c: char, from: nat): (r: nat)
    requires from <= |s|
    ensures from <= r <= |s|
    decreases |s| - from
  {
    if from == |s| then |s|
    else if s[from] == c then from
    else FirstIndex(s, c, from + 1)
  }

  /** FirstIndex finds a c, and no c comes before it from position from on. */
  lemma {:induction false} FirstIndexIsFirst(s: string, c: char, from: nat)
    requires from <= |s|
    ensures FirstIndex(s, c, from) < |s| ==> s[FirstIndex(s, c, from)] == c
    ensures forall k :: from <= k < FirstIndex(s, c, from) ==> s[k] != c
    decreases |s| - from
  {
    if from < |s| && s[from] != c {
      FirstIndexIsFirst(s, c, from + 1);
    }
  }

  /** Searching the slice s[a..j] from k finds the first c of s from a + k
      on, shifted by a, or the end of the slice when that c lies past it. */
  lemma {:induction false} FirstIndexInSlice(s: string, c: char, a: nat, j: nat, k: nat)
    requires a <= j <= |s| && k <= j - a
    ensures FirstIndex(s[a..j], c, k)
            == (if FirstIndex(s, c, a + k) <= j then FirstIndex(s, c, a + k) else j) - a
    decreases j - a - k
  {
    if k < j - a {
      assert s[a..j][k] == s[a + k];
      if s[a + k] != c {
        FirstIndexInSlice(s, c, a, j, k + 1);
      }
    }
  }

  /** s.rsplit(c, 1)[-1]: what follows the last c in s, or all of s when s
      holds no c. */
  function AfterLast(s: string, c: char): (r: string)
  {
    s[LastIndex(s, c, |s|) + 1..]
  }

  /** s.split(c, 1)[0]: what precedes the first c in s, or all of s when s
      holds no c. */
  function BeforeFirst(s: string, c: char): (r: string)
    ensures |r| <= |s| && c !in r
  {
    var k := FirstIndex(s, c, 0);
    FirstIndexIsFirst(s, c, 0);
    s[..k]
  }

  /** The rsplit piece holds no c; it is all of s when s holds no c, and
      otherwise s is some text, then c, then the piece. */
  lemma AfterLastIsLastPiece(s: string, c: char)
    ensures c !in AfterLast(s, c)
    ensures c !in s ==> AfterLast(s, c) == s
    ensures c in s ==> exists p :: s == p + [c] + AfterLast(s, c)
  {
    var k := LastIndex(s, c, |s|);
    LastIndexIsLast(s, c, |s|);
    if k >= 0 {
      SplitAtIndex(s, k);
      assert s == s[..k] + [c] + AfterLast(s, c);
    }
  }

  /** The split piece holds no c; it is all of s when s holds no c, and
      otherwise s is the piece, then c, then some text. */
  lemma BeforeFirstIsFirstPiece(s: string, c: char)
    ensures c !in BeforeFirst(s, c)
    ensures c !in s ==> BeforeFirst(s, c) == s
    ensures c in s ==> exists q :: s == BeforeFirst(s, c) + [c] + q
  {
    var k := FirstIndex(s, c, 0);
    FirstIndexIsFirst(s, c, 0);
    if c in s {
      var i :| 0 <= i < |s| && s[i] == c;
      assert k < |s|;
      SplitAtIndex(s, k);
    }
  }

  /** Searching all of s[a..j] finds the last c of s before j, shifted by
      a, when it lies inside the slice. */
  lemma LastIndexOfSlice(s: string, c: char, a: nat, j: nat)
    requires a <= j <= |s|
    ensures LastIndex(s[a..j], c, |s[a..j]|)
            == if LastIndex(s, c, j) >= a then LastIndex(s, c, j) - a else -1
  {
    LastIndexInSlice(s, c, a, j, j - a);
    assert |s[a..j]| == j - a && a + (j - a) == j;
  }

  /** rsplit on a slice of s: the piece runs from just after the last c of s
      before j, or from a when that c lies before a, up to j. */
  lemma AfterLastOfSlice(s: string, c: char, a: nat, j: nat)
    requires a <= j <= |s|
    ensures AfterLast(s[a..j], c)
            == s[if LastIndex(s, c, j) + 1 >= a then LastIndex(s, c, j) + 1 else a..j]
  {
    var t := s[a..j];
    var k := LastIndex(t, c, |t|);
    LastIndexOfSlice(s, c, a, j);
    var m := LastIndex(s, c, j);
    var from := if m + 1 >= a then m + 1 else a;
    assert a + k + 1 == from;
    assert t[k + 1..] == s[from..j];
  }

  /** Searching s[a..j] from its start finds the first c of s from a on,
      shifted by a, or the end of the slice when that c lies past it. */
  lemma FirstIndexOfSlice(s: string, c: char, a: nat, j: nat)
    requires a <= j <= |s|
    ensures FirstIndex(s[a..j], c, 0)
            == (if FirstIndex(s, c, a) <= j then FirstIndex(s, c, a) else j) - a
  {
    FirstIndexInSlice(s, c, a, j, 0);
    assert a + 0 == a;
  }

  /** split on a slice of s: the piece runs from a up to the first c of s from
      a on, or up to j when that c lies at or past j. */
  lemma BeforeFirstOfSlice(s: string, c: char, a: nat, j: nat)
    requires a <= j <= |s|
    ensures BeforeFirst(s[a..j], c)
            == s[a..if FirstIndex(s, c, a) <= j then FirstIndex(s, c, a) else j]
  {
    var t := s[a..j];
    var k := FirstIndex(t, c, 0);
    FirstIndexOfSlice(s, c, a, j);
    assert t[..k] == s[a..a + k];
  }

  // ---------------------------------------------------------------------------
  // " " * n and s.expandtabs(tabsize)
  // ---------------------------------------------------------------------------

  /** " " * n */
  function Spaces(n: nat): (r: string)
    ensures |r| == n
    ensures forall i :: 0 <= i < n ==> r[i] == ' '
  {
    if n == 0 then [] else [' '] + Spaces(n - 1)
  }

  /** The display column after writing ch at column col, as str.expandtabs
      counts it: a tab advances to the next multiple of tabsize (not at all
      when tabsize <= 0), a line feed or carriage return goes back to 0, and
      every other character advances by one. */
  function NextColumn(ch: char, tabsize: int, col: nat): nat
  {
    if ch == '\t' then (if tabsize > 0 then col + (tabsize - col % tabsize) else col)
    else if ch == '\n' || ch == '\r' then 0
    else col + 1
  }

  /** What str.expandtabs writes for ch at column col. */
  function Expansion(ch: char, tabsize: int, col: nat): string
  {
    if ch == '\t' then Spaces(if tabsize > 0 then tabsize - col % tabsize else 0)
    else [ch]
  }

  /** s.expandtabs(tabsize), resumed at display column col. */
  function ExpandTabsFrom(s: string, tabsize: int, col: nat): string
  {
    if s == [] then []
    else Expansion(s[0], tabsize, col) + ExpandTabsFrom(s[1..], tabsize, NextColumn(s[0], tabsize, col))
  }

  /** The display column reached after s, starting at column col. */
  function EndColumn(s: string, tabsize: int, col: nat): nat
  {
    if s == [] then col
    else EndColumn(s[1..], tabsize, NextColumn(s[0], tabsize, col))
  }

  /** s.expandtabs(tabsize): a string without tabs comes back unchanged, and
      with a positive tab size nothing gets shorter. */
  function ExpandTabs(s: string, tabsize: int): (r: string)
    ensures '\t' !in s ==> r == s
    ensures tabsize > 0 ==> |r| >= |s|
  {
    var r := ExpandTabsFrom(s, tabsize, 0);
    assert '\t' !in s ==> r == s by {
      if '\t' !in s { NoTabUnchanged(s, tabsize, 0); }
    }
    assert tabsize > 0 ==> |r| >= |s| by {
      if tabsize > 0 { ExpansionNotShorter(s, tabsize, 0); }
    }
    r
  }

  /** Expansion is compositional: the second half is expanded from the column
      the first half ends at. */
  lemma {:induction false} ExpandTabsAppend(a: string, b: string, tabsize: int, col: nat)
    ensures ExpandTabsFrom(a + b, tabsize, col)
         == ExpandTabsFrom(a, tabsize, col) + ExpandTabsFrom(b, tabsize, EndColumn(a, tabsize, col))
    ensures EndColumn(a + b, tabsize, col) == EndColumn(b, tabsize, EndColumn(a, tabsize, col))
  {
    if a == [] {
      assert a + b == b;
    } else {
      assert (a + b)[0] == a[0] && (a + b)[1..] == a[1..] + b;
      ExpandTabsAppend(a[1..], b, tabsize, NextColumn(a[0], tabsize, col));
    }
  }

  /** A carriage return is copied and sends the column back to 0. */
  lemma ExpandAfterCarriageReturn(b: string, tabsize: int, col: nat)
    ensures ExpandTabsFrom("\r" + b, tabsize, col) == "\r" + ExpandTabsFrom(b, tabsize, 0)
  {
    var s := "\r" + b;
    assert s[0] == '\r' && s[1..] == b;
  }

  /** A carriage return resets the column: what follows it expands as if it
      started a fresh string. */
  lemma CarriageReturnResets(a: string, b: string, tabsize: int)
    ensures ExpandTabs(a + "\r" + b, tabsize) == ExpandTabs(a, tabsize) + "\r" + ExpandTabs(b, tabsize)
  {
    ExpandTabsAppend(a, "\r" + b, tabsize, 0);
    ExpandAfterCarriageReturn(b, tabsize, EndColumn(a, tabsize, 0));
    assert a + "\r" + b == a + ("\r" + b);
  }

  /** Without a tab, expansion changes nothing (carriage returns and line
      feeds are copied). */
  lemma {:induction false} NoTabUnchanged(s: string, tabsize: int, col: nat)
    requires '\t' !in s
    ensures ExpandTabsFrom(s, tabsize, col) == s
  {
    if s != [] {
      assert '\t' !in s[1..] by { assert forall k :: 0 <= k < |s[1..]| ==> s[1..][k] == s[k + 1]; }
      NoTabUnchanged(s[1..], tabsize, NextColumn(s[0], tabsize, col));
    }
  }

  /** With a positive tab stop every character writes at least one character,
      so the expansion is never shorter than the input. */
  lemma {:induction false} ExpansionNotShorter(s: string, tabsize: int, col: nat)
    requires tabsize > 0
    ensures |ExpandTabsFrom(s, tabsize, col)| >= |s|
  {
    if s != [] {
      assert |Expansion(s[0], tabsize, col)| >= 1;
      ExpansionNotShorter(s[1..], tabsize, NextColumn(s[0], tabsize, col));
    }
  }

  /** On a single display line (no line feed, no carriage return) the column
      reached is the start column plus the expanded width. */
  lemma {:induction false} ColumnIsWidth(s: string, tabsize: int, col: nat)
    requires '\n' !in s && '\r' !in s
    ensures EndColumn(s, tabsize, col) == col + |ExpandTabsFrom(s, tabsize, col)|
  {
    if s != [] {
      assert '\n' !in s[1..] && '\r' !in s[1..] by {
        assert forall k :: 0 <= k < |s[1..]| ==> s[1..][k] == s[k + 1];
      }
      ColumnIsWidth(s[1..], tabsize, NextColumn(s[0], tabsize, col));
    }
  }

  /** A tab appended to a single display line takes its expansion to the next
      multiple of 8, strictly past the current width. */
  lemma TabAdvancesToNextStop(s: string)
    requires '\n' !in s && '\r' !in s
    ensures var w, w' := |ExpandTabs(s, 8)|, |ExpandTabs(s + "\t", 8)|;
      w' % 8 == 0 && w < w' <= w + 8
  {
    ExpandTabsAppend(s, "\t", 8, 0);
    ColumnIsWidth(s, 8, 0);
    var w := |ExpandTabs(s, 8)|;
    assert ExpandTabsFrom("\t", 8, w) == Spaces(8 - w % 8);
    assert |ExpandTabs(s + "\t", 8)| == w + (8 - w % 8);
  }

  // ---------------------------------------------------------------------------
  // sep.join(parts) and s.split(c)
  // ---------------------------------------------------------------------------

  /** The summed length of the parts. */
  function TotalLength(parts: seq<string>): nat
  {
    if parts == [] then 0 else |parts[0]| + TotalLength(parts[1..])
  }

  /** sep.join(parts): every part once and a separator between each two, so
      the length is that of the parts plus one separator fewer than parts. */
  function Join(parts: seq<string>, sep: string): (r: string)
    ensures parts == [] ==> r == []
    ensures parts != [] ==> |r| == TotalLength(parts) + (|parts| - 1) * |sep|
  {
    if parts == [] then []
    else if |parts| == 1 then parts[0]
    else parts[0] + sep + Join(parts[1..], sep)
  }

  /** s.split(c) for a one-character separator: the pieces between the
      occurrences of c; always at least one piece, none holding c. */
  function Split(s: string, c: char): (r: seq<string>)
    ensures |r| >= 1
    ensures forall i :: 0 <= i < |r| ==> c !in r[i]
  {
    if s == [] then [[]]
    else
      var rest := Split(s[1..], c);
      if s[0] == c then [[]] + rest
      else [[s[0]] + rest[0]] + rest[1..]
  }

  /** A piece without the separator is not split. */
  lemma {:induction false} SplitNoSeparator(p: string, c: char)
    requires c !in p
    ensures Split(p, c) == [p]
  {
    if p != [] {
      assert c !in p[1..] by { assert forall k :: 0 <= k < |p[1..]| ==> p[1..][k] == p[k + 1]; }
      SplitNoSeparator(p[1..], c);
      assert [p[0]] + p[1..] == p;
    }
  }

  /** Splitting stops at the first separator. */
  lemma {:induction false} SplitAtFirst(p: string, c: char, t: string)
    requires c !in p
    ensures Split(p + [c] + t, c) == [p] + Split(t, c)
  {
    if p == [] {
      assert p + [c] + t == [c] + t;
      assert ([c] + t)[1..] == t;
    } else {
      var s := p + [c] + t;
      assert s[0] == p[0] && s[1..] == p[1..] + [c] + t;
      assert c !in p[1..] by { assert forall k :: 0 <= k < |p[1..]| ==> p[1..][k] == p[k + 1]; }
      SplitAtFirst(p[1..], c, t);
      assert [p[0]] + p[1..] == p;
    }
  }

  /** A separator at the very end closes the last piece and opens an empty
      one. */
  lemma {:induction false} SplitTrailingSeparator(s: string, c: char)
    ensures Split(s + [c], c) == Split(s, c) + [[]]
  {
    if s == [] {
      assert [] + [c] == [c] && [c][1..] == [];
    } else {
      var t := s + [c];
      assert t[0] == s[0] && t[1..] == s[1..] + [c];
      SplitTrailingSeparator(s[1..], c);
      var rest := Split(s[1..], c);
      if s[0] == c {
        assert [[]] + (rest + [[]]) == [[]] + rest + [[]];
      } else {
        assert (rest + [[]])[1..] == rest[1..] + [[]];
      }
    }
  }

  /** Round trip one way: joining pieces free of the separator and splitting
      again gives the pieces back. */
  lemma {:induction false} SplitJoin(parts: seq<string>, c: char)
    requires |parts| >= 1
    requires forall i :: 0 <= i < |parts| ==> c !in parts[i]
    ensures Split(Join(parts, [c]), c) == parts
  {
    if |parts| == 1 {
      SplitNoSeparator(parts[0], c);
    } else {
      SplitJoin(parts[1..], c);
      SplitAtFirst(parts[0], c, Join(parts[1..], [c]));
      assert [parts[0]] + parts[1..] == parts;
    }
  }

  /** Joining a list whose first piece has h in front. */
  lemma JoinPrepend(h: string, parts: seq<string>, sep: string)
    requires |parts| >= 1
    ensures Join([h + parts[0]] + parts[1..], sep) == h + Join(parts, sep)
  {
    var q := [h + parts[0]] + parts[1..];
    assert q[0] == h + parts[0] && q[1..] == parts[1..];
  }

  /** Round trip the other way: splitting and joining again gives the string
      back. */
  lemma {:induction false} JoinSplit(s: string, c: char)
    ensures Join(Split(s, c), [c]) == s
  {
    if s != [] {
      var rest := Split(s[1..], c);
      JoinSplit(s[1..], c);
      if s[0] == c {
        var q := [[]] + rest;
        assert q[1..] == rest;
        assert Join(q, [c]) == [] + [c] + Join(rest, [c]);
      } else {
        JoinPrepend([s[0]], rest, [c]);
      }
      assert [s[0]] + s[1..] == s;
    }
  }

  // ---------------------------------------------------------------------------
  // str(n) for an int, as f-strings render it
  // ---------------------------------------------------------------------------

  function Digit(d: nat): (r: char)
    requires d < 10
  {
    ('0' as int + d) as char
  }

  predicate IsDigits(s: string)
  {
    forall i :: 0 <= i < |s| ==> '0' <= s[i] <= '9'
  }

  /** Decimal digits of n, most significant first, without leading zeros. */
  function NatToDecimal(n: nat): (r: string)
    ensures |r| >= 1 && IsDigits(r)
    ensures r[0] == '0' ==> n == 0
  {
    if n < 10 then [Digit(n)]
    else NatToDecimal(n / 10) + [Digit(n % 10)]
  }

  /** str(i): a minus sign before the digits of a negative number. */
  function IntToDecimal(i: int): (r: string)
    ensures '\n' !in r
    ensures |r| >= 1
  {
    if i < 0 then "-" + NatToDecimal(-i) else NatToDecimal(i)
  }

  /** The value a string of decimal digits denotes. */
  function DigitsValue(s: string): nat
    requires IsDigits(s)
  {
    if s == [] then 0
    else DigitsValue(s[..|s| - 1]) * 10 + (s[|s| - 1] as int - '0' as int)
  }

  /** int(s) for what str produces: an optional minus sign and digits. */
  function ParseDecimal(s: string): int
  {
    if |s| >= 1 && s[0] == '-' && IsDigits(s[1..]) then -(DigitsValue(s[1..]) as int)
    else if IsDigits(s) then DigitsValue(s)
    else 0
  }

  lemma {:induction false} NatToDecimalValue(n: nat)
    ensures DigitsValue(NatToDecimal(n)) == n
  {
    if n >= 10 {
      NatToDecimalValue(n / 10);
      var s := NatToDecimal(n / 10) + [Digit(n % 10)];
      assert s[..|s| - 1] == NatToDecimal(n / 10);
    }
  }

  /** The rendering of an integer reads back as the same integer, so the line
      and column shown in a message are the ones stored. */
  lemma IntToDecimalRoundTrip(i: int)
    ensures ParseDecimal(IntToDecimal(i)) == i
  {
    if i < 0 {
      NatToDecimalValue(-i);
      var s := "-" + NatToDecimal(-i);
      assert s[1..] == NatToDecimal(-i);
    } else {
      NatToDecimalValue(i);
    }
  }
}
