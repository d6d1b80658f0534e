/** Python's `str.strip()` with no argument, over Dafny strings. */
module Text {

  /** The characters Python's `str.isspace()` accepts: the ASCII controls
      tab to carriage return, the four information separators, space,
      NEL, no-break space and the Unicode space separators. */
  predicate IsSpace(c: char) {
    var n := c as int;
    (0x09 <= n <= 0x0D) || (0x1C <= n <= 0x20) || n == 0x85 || n == 0xA0 ||
    n == 0x1680 || (0x2000 <= n <= 0x200A) || n == 0x2028 || n == 0x2029 ||
    n == 0x202F || n == 0x205F || n == 0x3000
  }

  /** Every character of `s` is whitespace (the empty string included). */
  predicate IsBlank(s: string) {
    forall i | 0 <= i < |s| :: IsSpace(s[i])
  }

  /** `str.strip()`: drops whitespace from both ends. The result is empty
      exactly when `s` is blank, and otherwise begins and ends with a
      non-whitespace character; StripIsSlice shows it is what lies
      between a blank prefix and a blank suffix of `s`. */
  function Strip(s: string): (r: string)
    ensures |r| <= |s|
    ensures r == [] <==> IsBlank(s)
    ensures r != [] ==> !IsSpace(r[0]) && !IsSpace(r[|r| - 1])
    decreases |s|
  {
    if s == [] then
      s
    else if IsSpace(s[0]) then
      assert IsBlank(s[1..]) ==> IsBlank(s) by {
        if IsBlank(s[1..]) {
          forall i | 0 <= i < |s| ensures IsSpace(s[i]) {
            if i > 0 { assert s[1..][i - 1] == s[i]; }
          }
        }
      }
      Strip(s[1..])
    else if IsSpace(s[|s| - 1]) then
      Strip(s[..|s| - 1])
    else
      s
  }

  /** Every character of `s` from index `lo` up to `hi` is whitespace. */
  predicate BlankBetween(s: string, lo: nat, hi: nat)
    requires lo <= hi <= |s|
  {
    forall i | lo <= i < hi :: IsSpace(s[i])
  }

  /** Blank bounds found in `s[1..]`, moved back onto `s` when `s` starts
      with whitespace. */
  lemma DropFirst(s: string, j: nat, n: nat)
    requires s != [] && IsSpace(s[0]) && j <= n <= |s| - 1
    requires BlankBetween(s[1..], 0, j) && BlankBetween(s[1..], n, |s| - 1)
    ensures s[1..][j..n] == s[j + 1..n + 1]
    ensures BlankBetween(s, 0, j + 1) && BlankBetween(s, n + 1, |s|)
  {
    var t := s[1..];
    forall i | 0 <= i < j + 1 ensures IsSpace(s[i]) {
      if i > 0 { assert s[i] == t[i - 1]; }
    }
    forall i | n + 1 <= i < |s| ensures IsSpace(s[i]) {
      assert s[i] == t[i - 1];
    }
  }

  /** Blank bounds found in `s[..|s| - 1]`, moved back onto `s` when `s`
      ends with whitespace and does not start with it. */
  lemma DropLast(s: string, k: nat, m: nat)
    requires s != [] && !IsSpace(s[0]) && IsSpace(s[|s| - 1]) && k <= m <= |s| - 1
    requires BlankBetween(s[..|s| - 1], 0, k) && BlankBetween(s[..|s| - 1], m, |s| - 1)
    ensures s[..|s| - 1][k..m] == s[k..m]
    ensures BlankBetween(s, 0, k) && BlankBetween(s, m, |s|)
  {
    var t := s[..|s| - 1];
    assert t[0] == s[0];
    forall i | m <= i < |s| ensures IsSpace(s[i]) {
      if i < |t| { assert s[i] == t[i]; }
    }
  }

  /** The stripped text is a slice `s[k..m]` of `s` with only whitespace
      before and after it. */
  lemma {:induction false} StripIsSlice(s: string) returns (k: nat, m: nat)
    ensures k <= m <= |s| && Strip(s) == s[k..m]
    ensures BlankBetween(s, 0, k) && BlankBetween(s, m, |s|)
    decreases |s|
  {
    if s == [] {
      k, m := 0, 0;
    } else if IsSpace(s[0]) {
      var j, n := StripIsSlice(s[1..]);
      DropFirst(s, j, n);
      k, m := j + 1, n + 1;
    } else if IsSpace(s[|s| - 1]) {
      k, m := StripIsSlice(s[..|s| - 1]);
      DropLast(s, k, m);
    } else {
      k, m := 0, |s|;
      assert s[0..|s|] == s;
    }
  }

  /** Conversely, `strip()` of a string that is a text with non-whitespace
      ends between a blank prefix and a blank suffix gives back the text. */
  lemma {:induction false} StripPadding(s: string, k: nat, m: nat)
    requires k < m <= |s| && !IsSpace(s[k]) && !IsSpace(s[m - 1])
    requires BlankBetween(s, 0, k) && BlankBetween(s, m, |s|)
    ensures Strip(s) == s[k..m]
    decreases |s|
  {
    if k > 0 {
      var t := s[1..];
      assert IsSpace(s[0]);
      assert t[k - 1..m - 1] == s[k..m];
      assert t[k - 1] == s[k] && t[m - 2] == s[m - 1];
      forall i | m - 1 <= i < |t| ensures IsSpace(t[i]) {
        assert t[i] == s[i + 1];
      }
      StripPadding(t, k - 1, m - 1);
    } else if m < |s| {
      var t := s[..|s| - 1];
      assert IsSpace(s[|s| - 1]);
      assert t[k..m] == s[k..m];
      assert t[k] == s[k] && t[m - 1] == s[m - 1];
      StripPadding(t, k, m);
    } else {
      assert s[0..|s|] == s;
    }
  }

  /** Blank bounds of `t`, carried over to `t` between blank padding. */
  lemma PadBounds(before: string, t: string, after: string, k: nat, m: nat)
    requires IsBlank(before) && IsBlank(after) && k <= m <= |t|
    requires BlankBetween(t, 0, k) && BlankBetween(t, m, |t|)
    ensures var s := before + t + after;
      BlankBetween(s, 0, |before| + k) && BlankBetween(s, |before| + m, |s|) &&
      s[|before| + k..|before| + m] == t[k..m]
  {
    var s := before + t + after;
    var b := |before|;
    forall i | 0 <= i < b + k ensures IsSpace(s[i]) {
      if i < b { assert s[i] == before[i]; } else { assert s[i] == t[i - b]; }
    }
    forall i | b + m <= i < |s| ensures IsSpace(s[i]) {
      if i < b + |t| { assert s[i] == t[i - b]; } else { assert s[i] == after[i - b - |t|]; }
    }
    assert s[b..b + |t|] == t;
  }

  /** Whitespace added around any text, blank or not, does not change what
      `strip()` returns. */
  lemma {:induction false} StripIgnoresPadding(before: string, t: string, after: string)
    requires IsBlank(before) && IsBlank(after)
    ensures Strip(before + t + after) == Strip(t)
  {
    var s := before + t + after;
    var k, m := StripIsSlice(t);
    PadBounds(before, t, after, k, m);
    var lo, hi := |before| + k, |before| + m;
    if k == m {
      forall i | 0 <= i < |s| ensures IsSpace(s[i]) {
        if i >= lo { assert i >= hi; }
      }
    } else {
      var r := s[lo..hi];
      assert r == Strip(t);
      assert s[lo] == r[0] && s[hi - 1] == r[|r| - 1];
      StripPadding(s, lo, hi);
    }
  }
}
