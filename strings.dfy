/**
 * The few Python built-ins the core relies on: `str.isspace`, `str.strip`,
 * `sep.join(parts)`, `text.split("\n\n")` and `min`.
 */
module Strings {

  /** Python's `c.isspace()`: the ASCII controls TAB..CR and FS..US, the space,
      NEL, NO-BREAK SPACE and the Unicode space separators. */
  predicate IsSpace(c: char) {
    var n := c as int;
    || 9 <= n <= 13
    || 28 <= n <= 32
    || n == 0x85 || n == 0xA0 || n == 0x1680
    || 0x2000 <= n <= 0x200A
    || n == 0x2028 || n == 0x2029 || n == 0x202F || n == 0x205F || n == 0x3000
  }

  /** Every character is whitespace (vacuously true of ""). */
  predicate IsBlank(s: string) {
    forall i :: 0 <= i < |s| ==> IsSpace(s[i])
  }

  /** Non-empty, and neither end is whitespace: what `strip` leaves of a non-blank string. */
  predicate IsStripped(s: string) {
    s != "" && !IsSpace(s[0]) && !IsSpace(s[|s| - 1])
  }

  /** Drops the leading whitespace. */
  function TrimStart(s: string): (r: string)
    ensures |r| <= |s|
  {
    if s != "" && IsSpace(s[0]) then TrimStart(s[1..]) else s
  }

  /** What `TrimStart` keeps is a suffix that does not start with whitespace,
      and everything it dropped is whitespace. */
  lemma {:induction false} TrimStartSpec(s: string)
    ensures var r := TrimStart(s);
      && r == s[|s| - |r|..]
      && (r == "" || !IsSpace(r[0]))
      && forall i :: 0 <= i < |s| - |r| ==> IsSpace(s[i])
    decreases |s|
  {
    if s != "" && IsSpace(s[0]) {
      TrimStartSpec(s[1..]);
      var r := TrimStart(s);
      forall i | 0 <= i < |s| - |r| ensures IsSpace(s[i]) {
        if i > 0 { assert s[i] == s[1..][i - 1]; }
      }
    }
  }

  /** Drops the trailing whitespace. */
  function TrimEnd(s: string): (r: string)
    ensures |r| <= |s|
  {
    if s != "" && IsSpace(s[|s| - 1]) then TrimEnd(s[..|s| - 1]) else s
  }

  /** What `TrimEnd` keeps is a prefix that does not end with whitespace,
      and everything it dropped is whitespace. */
  lemma {:induction false} TrimEndSpec(s: string)
    ensures var r := TrimEnd(s);
      && r == s[..|r|]
      && (r == "" || !IsSpace(r[|r| - 1]))
      && forall i :: |r| <= i < |s| ==> IsSpace(s[i])
    decreases |s|
  {
    if s != "" && IsSpace(s[|s| - 1]) {
      TrimEndSpec(s[..|s| - 1]);
      var r := TrimEnd(s);
      forall i | |r| <= i < |s| ensures IsSpace(s[i]) {
        if i < |s| - 1 { assert s[i] == s[..|s| - 1][i]; }
      }
    }
  }

  /** Python's `s.strip()`: the longest slice of `s` that neither starts nor ends with whitespace. */
  function Strip(s: string): (r: string)
    ensures |r| <= |s|
    ensures r == "" <==> IsBlank(s)
    ensures r != "" ==> IsStripped(r)
  {
    var t := TrimStart(s);
    var r := TrimEnd(t);
    TrimStartSpec(s);
    TrimEndSpec(t);
    assert r != "" ==> r[0] == t[0];
    assert IsBlank(s) ==> t == "" by {
      if t != "" { assert t[0] == s[|s| - |t|]; }
    }
    assert t != "" ==> r != "";
    r
  }

  /** `min(a, b)`, which also clips a slice bound to the end of a string. */
  function Min(a: int, b: int): int {
    if a <= b then a else b
  }

  /** Python's `sep.join(parts)`. */
  function JoinWith(parts: seq<string>, sep: string): (r: string)
    ensures parts != [] ==> parts[0] <= r
  {
    if parts == [] then ""
    else if |parts| == 1 then parts[0]
    else parts[0] + sep + JoinWith(parts[1..], sep)
  }

  /** Joining one more part adds exactly one separator and that part at the end. */
  lemma {:induction false} JoinAppend(parts: seq<string>, x: string, sep: string)
    requires parts != []
    ensures JoinWith(parts + [x], sep) == JoinWith(parts, sep) + sep + x
    decreases |parts|
  {
    if |parts| > 1 {
      assert (parts + [x])[1..] == parts[1..] + [x];
      JoinAppend(parts[1..], x, sep);
    }
  }

  /** Where the k-th part starts inside `JoinWith(parts, sep)`. */
  function PartOffset(parts: seq<string>, sep: string, k: nat): nat
    requires k < |parts|
  {
    if k == 0 then 0 else |parts[0]| + |sep| + PartOffset(parts[1..], sep, k - 1)
  }

  /** Layout of a join: every part appears at its offset, in order, followed by the
      separator unless it is the last one, and the last part ends the string. */
  lemma {:induction false} JoinLayout(parts: seq<string>, sep: string, k: nat)
    requires k < |parts|
    ensures var r, o := JoinWith(parts, sep), PartOffset(parts, sep, k);
      && o + |parts[k]| <= |r|
      && r[o..o + |parts[k]|] == parts[k]
      && (k + 1 < |parts| ==> o + |parts[k]| + |sep| <= |r| && r[o + |parts[k]|..o + |parts[k]| + |sep|] == sep)
      && (k + 1 == |parts| ==> o + |parts[k]| == |r|)
    decreases k
  {
    if k > 0 {
      JoinLayout(parts[1..], sep, k - 1);
      var rest := JoinWith(parts[1..], sep);
      var shift := |parts[0]| + |sep|;
      assert JoinWith(parts, sep) == parts[0] + sep + rest;
      assert JoinWith(parts, sep)[shift..] == rest;
    }
  }

  /** A line break followed by another: the paragraph separator `"\n\n"`. */
  predicate ContainsBlankLine(s: string) {
    exists i :: 0 <= i < |s| && BlankLineAt(s, i)
  }

  /** The separator `"\n\n"` starts at index `i`. */
  predicate BlankLineAt(s: string, i: int) {
    0 <= i < |s| - 1 && s[i] == '\n' && s[i + 1] == '\n'
  }

  /** Python's `s.split("\n\n")`: scans left to right and cuts at each
      non-overlapping occurrence of the separator. */
  function SplitOnBlankLines(s: string): (parts: seq<string>)
    ensures |parts| >= 1
    decreases |s|
  {
    if |s| < 2 then [s]
    else if s[0] == '\n' && s[1] == '\n' then [""] + SplitOnBlankLines(s[2..])
    else
      var rest := SplitOnBlankLines(s[1..]);
      [[s[0]] + rest[0]] + rest[1..]
  }

  /** The first piece of a split starts the text, and is followed by the separator
      when more pieces follow. */
  lemma {:induction false} SplitHead(s: string)
    ensures var parts := SplitOnBlankLines(s);
      && parts[0] <= s
      && (|parts| > 1 ==> |parts[0]| + 2 <= |s| && s[|parts[0]|] == '\n' && s[|parts[0]| + 1] == '\n')
    decreases |s|
  {
    if |s| >= 2 && !(s[0] == '\n' && s[1] == '\n') {
      SplitHead(s[1..]);
    }
  }

  /** No piece of a split contains the separator. */
  lemma {:induction false} SplitPiecesNoSeparator(s: string)
    ensures forall k :: 0 <= k < |SplitOnBlankLines(s)| ==> !ContainsBlankLine(SplitOnBlankLines(s)[k])
    decreases |s|
  {
    if |s| < 2 {
    } else if s[0] == '\n' && s[1] == '\n' {
      SplitPiecesNoSeparator(s[2..]);
      var rest := SplitOnBlankLines(s[2..]);
      var parts := SplitOnBlankLines(s);
      assert parts == [""] + rest;
      forall k | 0 <= k < |parts| ensures !ContainsBlankLine(parts[k]) {
        if k > 0 { assert parts[k] == rest[k - 1]; assert !ContainsBlankLine(rest[k - 1]); }
        else { assert parts[k] == ""; }
      }
    } else {
      SplitPiecesNoSeparator(s[1..]);
      SplitHead(s[1..]);
      var rest := SplitOnBlankLines(s[1..]);
      var parts := SplitOnBlankLines(s);
      var first := [s[0]] + rest[0];
      assert parts == [first] + rest[1..];
      assert !ContainsBlankLine(first) by {
        if rest[0] != "" { assert rest[0][0] == s[1]; }
        forall i | 0 <= i < |first| - 1 ensures !BlankLineAt(first, i) {
          if i > 0 { assert first[i] == rest[0][i - 1] && first[i + 1] == rest[0][i]; assert !BlankLineAt(rest[0], i - 1); }
        }
      }
      forall k | 1 <= k < |parts| ensures parts[k] == rest[k] { }
    }
  }

  predicate EndsOutsideBreak(p: string) {
    p == "" || p[|p| - 1] != '\n'
  }

  /** No piece but the last ends with a line break: the scan is leftmost, so the
      separator would have been found one character earlier. */
  lemma {:induction false} SplitPiecesLeftmost(s: string)
    ensures forall k :: 0 <= k < |SplitOnBlankLines(s)| - 1 ==> EndsOutsideBreak(SplitOnBlankLines(s)[k])
    decreases |s|
  {
    if |s| < 2 {
    } else if s[0] == '\n' && s[1] == '\n' {
      SplitPiecesLeftmost(s[2..]);
      var rest := SplitOnBlankLines(s[2..]);
      var parts := SplitOnBlankLines(s);
      assert parts == [""] + rest;
      forall k | 0 <= k < |parts| - 1 ensures EndsOutsideBreak(parts[k]) {
        if k > 0 { assert parts[k] == rest[k - 1]; }
      }
    } else {
      SplitPiecesLeftmost(s[1..]);
      LeftmostExtend(s);
    }
  }

  /** The inductive step of `SplitPiecesLeftmost` when the text does not start with the separator. */
  lemma LeftmostExtend(s: string)
    requires |s| >= 2 && !(s[0] == '\n' && s[1] == '\n')
    requires forall k :: 0 <= k < |SplitOnBlankLines(s[1..])| - 1 ==> EndsOutsideBreak(SplitOnBlankLines(s[1..])[k])
    ensures forall k :: 0 <= k < |SplitOnBlankLines(s)| - 1 ==> EndsOutsideBreak(SplitOnBlankLines(s)[k])
  {
    SplitHead(s[1..]);
    var rest := SplitOnBlankLines(s[1..]);
    var parts := SplitOnBlankLines(s);
    var first := [s[0]] + rest[0];
    forall k | 0 <= k < |parts| - 1 ensures EndsOutsideBreak(parts[k]) {
      if k > 0 {
        assert parts[k] == rest[k];
      } else if rest[0] == "" {
        assert parts[0] == [s[0]];
        assert s[1] == '\n';
      } else {
        assert parts[0] == first;
        assert first[|first| - 1] == rest[0][|rest[0]| - 1];
      }
    }
  }

  /** Round trip: joining the pieces of a split with the separator gives back the text. */
  lemma {:induction false} SplitJoinRoundTrip(s: string)
    ensures JoinWith(SplitOnBlankLines(s), "\n\n") == s
    decreases |s|
  {
    if |s| < 2 {
    } else if s[0] == '\n' && s[1] == '\n' {
      SplitJoinRoundTrip(s[2..]);
      var rest := SplitOnBlankLines(s[2..]);
      assert ([""] + rest)[1..] == rest;
      assert s == "\n\n" + s[2..];
    } else {
      SplitJoinRoundTrip(s[1..]);
      var rest := SplitOnBlankLines(s[1..]);
      var parts := SplitOnBlankLines(s);
      assert parts == [[s[0]] + rest[0]] + rest[1..];
      if |rest| == 1 {
        assert s == [s[0]] + s[1..];
      } else {
        assert parts[1..] == rest[1..];
        assert JoinWith(rest, "\n\n") == rest[0] + "\n\n" + JoinWith(rest[1..], "\n\n");
        assert s == [s[0]] + s[1..];
      }
    }
  }

  predicate AllBlank(parts: seq<string>) {
    forall k :: 0 <= k < |parts| ==> IsBlank(parts[k])
  }

  lemma BlankConcat(a: string, b: string)
    ensures IsBlank(a + b) <==> IsBlank(a) && IsBlank(b)
  {
    if IsBlank(a + b) {
      forall i | 0 <= i < |a| ensures IsSpace(a[i]) { assert (a + b)[i] == a[i]; }
      forall i | 0 <= i < |b| ensures IsSpace(b[i]) { assert (a + b)[|a| + i] == b[i]; }
    }
    if IsBlank(a) && IsBlank(b) {
      forall i | 0 <= i < |a + b| ensures IsSpace((a + b)[i]) { if i >= |a| { assert (a + b)[i] == b[i - |a|]; } }
    }
  }

  /** With a whitespace separator, a join is blank exactly when every part is. */
  lemma {:induction false} JoinBlank(parts: seq<string>, sep: string)
    requires IsBlank(sep)
    ensures IsBlank(JoinWith(parts, sep)) <==> AllBlank(parts)
    decreases |parts|
  {
    if |parts| > 1 {
      JoinBlank(parts[1..], sep);
      BlankConcat(parts[0], sep);
      BlankConcat(parts[0] + sep, JoinWith(parts[1..], sep));
      if AllBlank(parts) {
        assert AllBlank(parts[1..]) by {
          forall k | 0 <= k < |parts[1..]| ensures IsBlank(parts[1..][k]) { assert parts[1..][k] == parts[k + 1]; }
        }
      }
      if IsBlank(parts[0]) && AllBlank(parts[1..]) {
        forall k | 0 <= k < |parts| ensures IsBlank(parts[k]) { if k > 0 { assert parts[k] == parts[1..][k - 1]; } }
      }
    }
  }

  /** Splitting never hides or invents non-whitespace: the text is blank exactly
      when all of its pieces are. */
  lemma SplitBlank(s: string)
    ensures IsBlank(s) <==> AllBlank(SplitOnBlankLines(s))
  {
    SplitJoinRoundTrip(s);
    JoinBlank(SplitOnBlankLines(s), "\n\n");
  }
}
