/** Numeric and string helpers of the tool (utils.c): clamping, linear
    interpolation, ASCII lower-casing, whitespace trimming and the
    numeric-token check. C strings are modelled as `seq<char>` (the
    characters before the terminating NUL); a buffer the source changes in
    place is an `array<char>` holding those characters. */
module Utils {

  // ---------------------------------------------------------------------
  // clamp_float and lerp
  // ---------------------------------------------------------------------

  /** `clamp_float`: the lower bound is tested first, so when lo > hi a value
      below lo still yields lo. */
  function ClampFloat(value: real, lo: real, hi: real): (r: real)
    ensures value < lo ==> r == lo
    ensures lo <= value && value > hi ==> r == hi
    ensures lo <= value <= hi ==> r == value
    ensures lo <= hi ==> lo <= r <= hi
  {
    if value < lo then lo else if value > hi then hi else value
  }

  /** `lerp`: t is clamped into [0, 1] before interpolating. */
  function Lerp(a: real, b: real, t: real): (r: real)
  {
    var s := ClampFloat(t, 0.0, 1.0);
    a + (b - a) * s
  }

  /** The interpolant stays between its end points and reaches them at t <= 0
      and t >= 1 (exact arithmetic). */
  lemma LerpBetween(a: real, b: real, t: real)
    ensures t <= 0.0 ==> Lerp(a, b, t) == a
    ensures t >= 1.0 ==> Lerp(a, b, t) == b
    ensures a <= b ==> a <= Lerp(a, b, t) <= b
    ensures b <= a ==> b <= Lerp(a, b, t) <= a
  {
    var s := ClampFloat(t, 0.0, 1.0);
    var d := b - a;
    assert Lerp(a, b, t) == a + d * s;
    if t <= 0.0 {
      assert s == 0.0;
    } else if t >= 1.0 {
      assert s == 1.0;
    } else if a <= b {
      MulUnit(d, s);
    } else {
      MulUnit(-d, s);
      NegMul(d, s);
    }
  }

  lemma NegMul(d: real, s: real)
    ensures (-d) * s == -(d * s)
  {
  }

  lemma MulUnit(d: real, s: real)
    requires d >= 0.0 && 0.0 <= s <= 1.0
    ensures 0.0 <= d * s <= d
  {
    assert d * s <= d * 1.0;
  }

  // ---------------------------------------------------------------------
  // Characters in the C locale
  // ---------------------------------------------------------------------

  /** `tolower` in the C locale: only 'A'..'Z' change. */
  function ToLower(c: char): char
  {
    if 'A' <= c <= 'Z' then (c as int + 32) as char else c
  }

  /** `isspace` in the C locale: space, \t, \n, \v, \f, \r. */
  predicate IsSpace(c: char)
  {
    c == ' ' || c == '\t' || c == '\n' || c == 11 as char || c == 12 as char || c == '\r'
  }

  predicate IsDigit(c: char)
  {
    '0' <= c <= '9'
  }

  /** Character-wise lower-casing of a whole string. */
  function Lower(s: seq<char>): (r: seq<char>)
    ensures |r| == |s|
  {
    if |s| == 0 then [] else [ToLower(s[0])] + Lower(s[1..])
  }

  /** Each character is lower-cased on its own. */
  lemma {:induction false} LowerPointwise(s: seq<char>)
    ensures forall i :: 0 <= i < |s| ==> Lower(s)[i] == ToLower(s[i])
    decreases |s|
  {
    if |s| > 0 {
      LowerPointwise(s[1..]);
    }
  }

  /** Lower-casing is idempotent and leaves no upper-case letter behind. */
  lemma LowerIdempotent(s: seq<char>)
    ensures Lower(Lower(s)) == Lower(s)
    ensures forall i :: 0 <= i < |s| ==> !('A' <= Lower(s)[i] <= 'Z')
  {
    LowerPointwise(s);
    LowerPointwise(Lower(s));
  }

  /** `string_to_lower`: lower-cases the buffer in place, keeping its length. */
  method StringToLower(s: array<char>)
    requires NoNul(s[..])
    modifies s
    ensures s[..] == Lower(old(s[..]))
  {
    LowerPointwise(s[..]);
    var i := 0;
    while i < s.Length
      invariant 0 <= i <= s.Length
      invariant forall k :: 0 <= k < i ==> s[k] == ToLower(old(s[k]))
      invariant forall k :: i <= k < s.Length ==> s[k] == old(s[k])
    {
      s[i] := ToLower(s[i]);
      i := i + 1;
    }
  }

  // ---------------------------------------------------------------------
  // string_trim
  // ---------------------------------------------------------------------

  /** Drops trailing whitespace. */
  function TrimEnd(s: seq<char>): seq<char>
  {
    if |s| > 0 && IsSpace(s[|s| - 1]) then TrimEnd(s[..|s| - 1]) else s
  }

  /** Drops leading whitespace. */
  function TrimStart(s: seq<char>): seq<char>
  {
    if |s| > 0 && IsSpace(s[0]) then TrimStart(s[1..]) else s
  }

  /** The trimmed string: trailing whitespace removed first, then leading. */
  function Trim(s: seq<char>): seq<char>
  {
    TrimStart(TrimEnd(s))
  }

  /** TrimEnd keeps a prefix and removes only whitespace. */
  lemma {:induction false} TrimEndPrefix(s: seq<char>) returns (e: nat)
    ensures e <= |s| && TrimEnd(s) == s[..e]
    ensures forall k :: e <= k < |s| ==> IsSpace(s[k])
    ensures e > 0 ==> !IsSpace(s[e - 1])
  {
    if |s| > 0 && IsSpace(s[|s| - 1]) {
      var p := s[..|s| - 1];
      e := TrimEndPrefix(p);
      assert TrimEnd(s) == s[..e];
      forall k | e <= k < |s| ensures IsSpace(s[k]) {
        if k < |p| { assert s[k] == p[k]; }
      }
    } else {
      e := |s|;
      assert TrimEnd(s) == s[..|s|];
    }
  }

  /** TrimStart keeps a suffix and removes only whitespace. */
  lemma {:induction false} TrimStartSuffix(s: seq<char>) returns (b: nat)
    ensures b <= |s| && TrimStart(s) == s[b..]
    ensures forall k :: 0 <= k < b ==> IsSpace(s[k])
    ensures b < |s| ==> !IsSpace(s[b])
  {
    if |s| > 0 && IsSpace(s[0]) {
      var q := s[1..];
      var b' := TrimStartSuffix(q);
      b := b' + 1;
      assert TrimStart(s) == s[b..];
      forall k | 0 <= k < b ensures IsSpace(s[k]) {
        if k > 0 { assert s[k] == q[k - 1]; }
      }
    } else {
      b := 0;
      assert TrimStart(s) == s[0..];
    }
  }

  /** The bounds of the trimmed slice. */
  lemma TrimSlice(s: seq<char>) returns (b: nat, e: nat)
    ensures b <= e <= |s| && Trim(s) == s[b..e]
    ensures forall k :: 0 <= k < b ==> IsSpace(s[k])
    ensures forall k :: e <= k < |s| ==> IsSpace(s[k])
    ensures b < e ==> !IsSpace(s[b]) && !IsSpace(s[e - 1])
  {
    e := TrimEndPrefix(s);
    var t := s[..e];
    b := TrimStartSuffix(t);
    PrefixSlice(s, e, b);
  }

  lemma PrefixSlice(s: seq<char>, e: nat, b: nat)
    requires b <= e <= |s|
    ensures s[..e][b..] == s[b..e]
    ensures forall k :: 0 <= k < e ==> s[..e][k] == s[k]
  {
  }

  /** `string_trim` leaves the maximal contiguous slice of the input that
      neither starts nor ends with whitespace; everything it removes is
      whitespace. */
  lemma TrimIsMaximalSlice(s: seq<char>)
    ensures exists b, e :: 0 <= b <= e <= |s| && Trim(s) == s[b..e]
              && (forall k :: 0 <= k < b ==> IsSpace(s[k]))
              && (forall k :: e <= k < |s| ==> IsSpace(s[k]))
              && (b < e ==> !IsSpace(s[b]) && !IsSpace(s[e - 1]))
  {
    var b, e := TrimSlice(s);
  }

  /** A string of whitespace only trims to the empty string, and only such a
      string does. */
  lemma TrimEmptyIffAllSpace(s: seq<char>)
    ensures Trim(s) == [] <==> forall k :: 0 <= k < |s| ==> IsSpace(s[k])
  {
    var b, e := TrimSlice(s);
    if b < e {
      assert Trim(s)[0] == s[b];
    }
  }

  lemma {:induction false} TrimStartFixed(s: seq<char>)
    requires |s| == 0 || !IsSpace(s[0])
    ensures TrimStart(s) == s
  {
  }

  lemma {:induction false} TrimEndFixed(s: seq<char>)
    requires |s| == 0 || !IsSpace(s[|s| - 1])
    ensures TrimEnd(s) == s
  {
  }

  /** Trimming twice is trimming once. */
  lemma TrimIdempotent(s: seq<char>)
    ensures Trim(Trim(s)) == Trim(s)
  {
    var b, e := TrimSlice(s);
    var t := Trim(s);
    if |t| > 0 {
      assert !IsSpace(t[0]) && !IsSpace(t[|t| - 1]);
    }
    TrimEndFixed(t);
    TrimStartFixed(t);
  }

  /** The characters of a C string: no NUL before its terminator. */
  predicate NoNul(s: seq<char>)
  {
    forall k :: 0 <= k < |s| ==> s[k] != 0 as char
  }

  /** `string_trim` on a buffer holding a string's characters (its
      terminator sits just past the buffer). Trailing whitespace is
      overwritten with NUL from the end, then the remaining text is moved to
      the front with its terminator. The result is the first `len`
      characters; position `len`, when it exists, holds the terminator. */
  method StringTrim(s: array<char>) returns (len: nat)
    requires NoNul(s[..])
    modifies s
    ensures len <= s.Length
    ensures s[..len] == Trim(old(s[..]))
    ensures len < s.Length ==> s[len] == 0 as char
  {
    ghost var orig := s[..];
    var end := StripTrailing(s);
    // Skip leading whitespace: `start` walks forwards up to the terminator.
    var start := 0;
    while start < end && IsSpace(s[start])
      invariant 0 <= start <= end
      invariant Trim(orig) == TrimStart(orig[start..end])
    {
      assert orig[start..end][1..] == orig[start + 1..end];
      start := start + 1;
    }
    assert Trim(orig) == orig[start..end];
    len := end - start;
    if start != 0 {
      MoveToFront(s, start, end);
    }
  }

  /** The first loop of `string_trim`: `end` walks backwards over trailing
      whitespace, overwriting it with NUL. */
  method StripTrailing(s: array<char>) returns (end: nat)
    modifies s
    ensures end <= s.Length
    ensures s[..end] == old(s[..end]) && TrimEnd(old(s[..])) == old(s[..end])
    ensures forall k :: end <= k < s.Length ==> s[k] == 0 as char
  {
    ghost var orig := s[..];
    assert orig[..s.Length] == orig;
    end := s.Length;
    while end > 0 && IsSpace(s[end - 1])
      invariant 0 <= end <= s.Length
      invariant s[..end] == orig[..end]
      invariant TrimEnd(orig) == TrimEnd(orig[..end])
      invariant forall k :: end <= k < s.Length ==> s[k] == 0 as char
    {
      assert orig[..end][..end - 1] == orig[..end - 1];
      s[end - 1] := 0 as char;
      end := end - 1;
    }
  }

  /** `memmove(str, start, strlen(start) + 1)`: the text `s[start..end]` and
      the terminator after it move to the front; a forward copy is safe since
      the destination lies before the source. */
  method MoveToFront(s: array<char>, start: nat, end: nat)
    requires 0 < start <= end <= s.Length
    requires forall k :: end <= k < s.Length ==> s[k] == 0 as char
    modifies s
    ensures s[..end - start] == old(s[start..end])
    ensures s[end - start] == 0 as char
  {
    ghost var orig := s[..];
    var len := end - start;
    var k := 0;
    while k < len
      invariant 0 <= k <= len
      invariant forall i :: 0 <= i < k ==> s[i] == orig[start + i]
      invariant forall i :: k <= i < s.Length ==> s[i] == orig[i]
    {
      s[k] := s[start + k];
      k := k + 1;
    }
    s[len] := if end < s.Length then s[end] else 0 as char;
  }

  // ---------------------------------------------------------------------
  // is_numeric
  // ---------------------------------------------------------------------

  /** Digits and at most one '.', nothing else. */
  predicate NumericBody(t: seq<char>)
  {
    (forall i :: 0 <= i < |t| ==> IsDigit(t[i]) || t[i] == '.')
    && (forall i, j :: 0 <= i < j < |t| && t[i] == '.' ==> t[j] != '.')
  }

  /** What `is_numeric` accepts: a non-empty string whose first character is
      a digit, a sign or '.', and whose text after one optional leading sign
      is a numeric body. A lone sign or a lone '.' is accepted. */
  predicate Numeric(s: seq<char>)
  {
    |s| > 0
    && (IsDigit(s[0]) || s[0] == '-' || s[0] == '+' || s[0] == '.')
    && NumericBody(if s[0] == '-' || s[0] == '+' then s[1..] else s)
  }

  /** `is_numeric`: scans with a moving position `p` and a `has_dot` flag. */
  method IsNumeric(s: seq<char>) returns (ok: bool)
    ensures ok == Numeric(s)
  {
    if |s| == 0 {
      return false;
    }
    if !IsDigit(s[0]) && s[0] != '-' && s[0] != '+' && s[0] != '.' {
      return false;
    }
    var hasDot := false;
    var p := 0;
    if s[p] == '-' || s[p] == '+' {
      p := 1;
    }
    ghost var first := p;
    ghost var body := s[first..];
    assert body == (if s[0] == '-' || s[0] == '+' then s[1..] else s);
    while p < |s|
      invariant first <= p <= |s|
      invariant forall i :: first <= i < p ==> IsDigit(s[i]) || s[i] == '.'
      invariant forall i, j :: first <= i < j < p && s[i] == '.' ==> s[j] != '.'
      invariant hasDot <==> exists i :: first <= i < p && s[i] == '.'
    {
      if s[p] == '.' {
        if hasDot {
          assert body[p - first] == '.';
          ghost var i :| first <= i < p && s[i] == '.';
          assert body[i - first] == '.';
          return false;
        }
        hasDot := true;
      } else if !IsDigit(s[p]) {
        assert body[p - first] == s[p];
        return false;
      }
      p := p + 1;
    }
    assert forall i :: 0 <= i < |body| ==> body[i] == s[first + i];
    return true;
  }

  /** A lone sign or a lone '.' passes the check; an empty string does not. */
  lemma NumericEdgeCases()
    ensures Numeric("+") && Numeric("-") && Numeric(".")
    ensures !Numeric("")
    ensures Numeric("-12.5") && !Numeric("1.2.3") && !Numeric("+-1")
  {
    assert "+"[1..] == [];
    assert "-12.5"[1..] == "12.5";
    var t := "1.2.3";
    assert t[1] == '.' && t[3] == '.';
    assert "+-1"[1..][0] == '-';
  }
}
