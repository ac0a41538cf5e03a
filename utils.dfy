/**
 * The string helpers of libs/utils/src/utils.c: bounded concatenation, the overflow test
 * of safe_calloc, string-to-int conversion through strtol (section 7.22.1.4 of ISO/IEC
 * 9899:2011), whitespace trimming and the numeric test.
 *
 * A C buffer is an `array<char>` that holds a NUL; the string it holds is `CStr(a[..])`.
 */
module Utils {
  import opened Wrappers
  import opened SizeT
  import opened CType

  const INT_MIN: int := -0x8000_0000
  const INT_MAX: int := 0x7FFF_FFFF
  const LONG_MIN: int := -0x8000_0000_0000_0000
  const LONG_MAX: int := 0x7FFF_FFFF_FFFF_FFFF

  // ---------------------------------------------------------------------------------
  // safe_strcat (lines 40-55)
  // ---------------------------------------------------------------------------------

  /**
   * safe_strcat on a buffer of `dest.Length` bytes: appends `src` exactly when the two
   * strings and a terminator fit, and otherwise leaves the buffer alone.
   */
  method SafeStrcat(dest: array<char>, src: seq<char>) returns (ok: bool)
    requires dest.Length == 0 || NUL in dest[..]
    requires NoNul(src)
    modifies dest
    ensures ok <==> dest.Length > 0 && |CStr(old(dest[..]))| + |src| < dest.Length
    ensures ok ==> NUL in dest[..] && CStr(dest[..]) == CStr(old(dest[..])) + src
    ensures ok ==> var end := |CStr(old(dest[..]))| + |src| + 1; dest[end..] == old(dest[..])[end..]
    ensures !ok ==> dest[..] == old(dest[..])
  {
    if dest.Length == 0 {
      return false;
    }
    var destLen := CLen(dest[..]);
    if destLen + |src| >= dest.Length {
      return false;
    }
    ghost var before := dest[..];
    ghost var str := CStr(before);
    var i := 0;
    while i < |src|
      invariant 0 <= i <= |src|
      invariant dest[..destLen] == str
      invariant dest[destLen..destLen + i] == src[..i]
      invariant dest[destLen + |src| + 1..] == before[destLen + |src| + 1..]
    {
      dest[destLen + i] := src[i];
      assert dest[destLen..destLen + i + 1] == dest[destLen..destLen + i] + [src[i]];
      i := i + 1;
    }
    dest[destLen + |src|] := NUL;
    assert dest[..destLen + |src|] == str + src by {
      assert dest[..destLen + |src|] == dest[..destLen] + dest[destLen..destLen + |src|];
    }
    assert NoNul(str + src);
    CStrOf(dest[..], str + src);
    ok := true;
  }

  // ---------------------------------------------------------------------------------
  // safe_calloc (lines 61-69)
  // ---------------------------------------------------------------------------------

  /** The test of line 63: safe_calloc returns NULL without calling calloc. */
  predicate CallocRejects(count: nat, size: nat) {
    count != 0 && size > SIZE_MAX / count
  }

  /** The test rejects a request exactly when `count * size` does not fit in a size_t. */
  lemma CallocRejectsOverflow(count: nat, size: nat)
    ensures CallocRejects(count, size) <==> count * size > SIZE_MAX
  {
    if count != 0 {
      var q := SIZE_MAX / count;
      assert SIZE_MAX == q * count + SIZE_MAX % count;
      if size > q {
        MulAtLeast(count, q + 1, size);
        assert count * (q + 1) == q * count + count;
      } else {
        MulAtLeast(count, size, q);
      }
    }
  }

  /** Multiplying by a larger factor gives a larger product. */
  lemma MulAtLeast(c: nat, a: nat, b: nat)
    requires a <= b
    ensures c * a <= c * b
  {
    assert c * b == c * a + c * (b - a);
  }

  // ---------------------------------------------------------------------------------
  // str_to_int (lines 125-145) over strtol
  // ---------------------------------------------------------------------------------

  /** The number of leading characters of `s` satisfying isspace. */
  function SpacePrefix(s: seq<char>): (n: nat)
    ensures n <= |s| && (forall i :: 0 <= i < n ==> IsSpace(s[i])) && (n < |s| ==> !IsSpace(s[n]))
  {
    if s == [] || !IsSpace(s[0]) then 0 else 1 + SpacePrefix(s[1..])
  }

  /** The number of leading decimal digits of `s`. */
  function DigitPrefix(s: seq<char>): (n: nat)
    ensures n <= |s| && (forall i :: 0 <= i < n ==> IsDigit(s[i])) && (n < |s| ==> !IsDigit(s[n]))
  {
    if s == [] || !IsDigit(s[0]) then 0 else 1 + DigitPrefix(s[1..])
  }

  predicate AllDigits(s: seq<char>) {
    forall i :: 0 <= i < |s| ==> IsDigit(s[i])
  }

  /** The value of a string of decimal digits, most significant first. */
  function DigitsValue(d: seq<char>): nat
    requires AllDigits(d)
  {
    if d == [] then 0 else DigitsValue(d[..|d| - 1]) * 10 + DigitValue(d[|d| - 1])
  }

  /** What strtol(s, &end, 10) yields: the value, the offset of `end`, and whether errno became ERANGE. */
  datatype Conversion = Conversion(value: int, end: nat, erange: bool)

  /**
   * strtol in base 10: leading isspace characters, an optional sign and the longest run
   * of digits after it. Without digits nothing is consumed (`end` is the start) and the
   * value is 0; a value outside `long` is clamped to LONG_MIN or LONG_MAX with ERANGE.
   */
  function Strtol(s: seq<char>): (r: Conversion)
    ensures r.end <= |s| && LONG_MIN <= r.value <= LONG_MAX
    ensures r.end == 0 ==> r.value == 0 && !r.erange
  {
    var ws := SpacePrefix(s);
    var rest := s[ws..];
    var signLen := if rest != [] && (rest[0] == '-' || rest[0] == '+') then 1 else 0;
    var digits := DigitPrefix(rest[signLen..]);
    if digits == 0 then Conversion(0, 0, false)
    else
      var m: int := DigitsValue(rest[signLen..][..digits]);
      var v: int := if signLen == 1 && rest[0] == '-' then -m else m;
      var end := ws + signLen + digits;
      if v > LONG_MAX then Conversion(LONG_MAX, end, true)
      else if v < LONG_MIN then Conversion(LONG_MIN, end, true)
      else Conversion(v, end, false)
  }

  /**
   * str_to_int: the int the whole string spells, if it spells one. strtol's ERANGE and
   * values outside `int` fail (line 135), as do an empty conversion and trailing
   * characters (line 139).
   */
  function StrToInt(s: seq<char>): (r: Option<int>)
    ensures r.Some? ==> INT_MIN <= r.value <= INT_MAX
  {
    var c := Strtol(s);
    if c.erange || c.value < INT_MIN || c.value > INT_MAX then None
    else if c.end == 0 || c.end != |s| then None
    else Some(c.value)
  }

  /** printf("%u") of a natural number. */
  function FormatNat(n: nat): (r: seq<char>)
    ensures r != [] && AllDigits(r)
  {
    if n < 10 then [DigitChar(n)] else FormatNat(n / 10) + [DigitChar(n % 10)]
  }

  /** printf("%d"). */
  function FormatInt(n: int): (r: seq<char>)
    ensures r != []
  {
    if n < 0 then ['-'] + FormatNat(-n) else FormatNat(n)
  }

  /** Reading back a formatted natural number gives the number. */
  lemma {:induction false} DigitsValueOfFormat(n: nat)
    ensures DigitsValue(FormatNat(n)) == n
  {
    if n >= 10 {
      DigitsValueOfFormat(n / 10);
      var f := FormatNat(n);
      assert f[..|f| - 1] == FormatNat(n / 10);
    }
  }

  /** A string of digits is one run of digits. */
  lemma {:induction false} DigitPrefixOfDigits(s: seq<char>, tail: seq<char>)
    requires AllDigits(s) && (tail != [] ==> !IsDigit(tail[0]))
    ensures DigitPrefix(s + tail) == |s|
  {
    if s != [] {
      assert (s + tail)[1..] == s[1..] + tail;
      DigitPrefixOfDigits(s[1..], tail);
    } else {
      assert s + tail == tail;
    }
  }

  /** Leading whitespace is a run of whitespace that ends where the text starts. */
  lemma {:induction false} SpacePrefixOfSpaces(ws: seq<char>, t: seq<char>)
    requires (forall i :: 0 <= i < |ws| ==> IsSpace(ws[i])) && (t != [] ==> !IsSpace(t[0]))
    ensures SpacePrefix(ws + t) == |ws|
  {
    if ws != [] {
      assert (ws + t)[1..] == ws[1..] + t;
      SpacePrefixOfSpaces(ws[1..], t);
    } else {
      assert ws + t == t;
    }
  }

  /** strtol once the whitespace, the sign and the digits of `s` are known. */
  lemma StrtolReads(s: seq<char>, w: nat, neg: bool, d: seq<char>)
    requires w <= |s| && SpacePrefix(s) == w && d != [] && AllDigits(d)
    requires var rest := s[w..]; var k := if neg then 1 else 0;
      && k <= |rest|
      && (if rest != [] && (rest[0] == '-' || rest[0] == '+') then 1 else 0) == k
      && (k == 1 && rest[0] == '-' <==> neg)
      && DigitPrefix(rest[k..]) == |d| && rest[k..][..|d|] == d
    ensures var m: int := DigitsValue(d);
      var v := if neg then -m else m;
      var end := w + (if neg then 1 else 0) + |d|;
      Strtol(s) == if v > LONG_MAX then Conversion(LONG_MAX, end, true)
                   else if v < LONG_MIN then Conversion(LONG_MIN, end, true)
                   else Conversion(v, end, false)
  {
  }

  /** strtol reads whitespace, an optional minus sign and a run of digits ended by a non-digit as the signed value of the digits. */
  lemma StrtolOfParts(ws: seq<char>, f: seq<char>, tail: seq<char>, neg: bool, d: seq<char>)
    requires forall i :: 0 <= i < |ws| ==> IsSpace(ws[i])
    requires d != [] && AllDigits(d) && (tail != [] ==> !IsDigit(tail[0]))
    requires f == (if neg then ['-'] else []) + d
    ensures var m: int := DigitsValue(d);
      var v := if neg then -m else m;
      var c := Strtol(ws + f + tail);
      && c.end == |ws| + |f|
      && c.erange == (v < LONG_MIN || v > LONG_MAX)
      && (!c.erange ==> c.value == v)
  {
    var s := ws + f + tail;
    var k := if neg then 1 else 0;
    SpacesThenNumber(ws, f + tail, neg, d);
    assert s == ws + (f + tail);
    SignThenDigits(s[|ws|..], neg, d, tail);
    StrtolReads(s, |ws|, neg, d);
  }

  /** Whitespace followed by a sign or a digit: the whitespace is the prefix strtol skips. */
  lemma SpacesThenNumber(ws: seq<char>, t: seq<char>, neg: bool, d: seq<char>)
    requires forall i :: 0 <= i < |ws| ==> IsSpace(ws[i])
    requires d != [] && AllDigits(d) && |t| > 0 && (if neg then t[0] == '-' else t[0] == d[0])
    ensures SpacePrefix(ws + t) == |ws| && (ws + t)[|ws|..] == t
  {
    assert IsDigit(d[0]);
    SpacePrefixOfSpaces(ws, t);
  }

  /** After the optional minus sign strtol finds exactly the digits `d`. */
  lemma SignThenDigits(rest: seq<char>, neg: bool, d: seq<char>, tail: seq<char>)
    requires d != [] && AllDigits(d) && (tail != [] ==> !IsDigit(tail[0]))
    requires rest == (if neg then ['-'] else []) + d + tail
    ensures var k := if neg then 1 else 0;
      && k <= |rest|
      && (if rest != [] && (rest[0] == '-' || rest[0] == '+') then 1 else 0) == k
      && (k == 1 && rest[0] == '-' <==> neg)
      && DigitPrefix(rest[k..]) == |d| && rest[k..][..|d|] == d
  {
    var k := if neg then 1 else 0;
    assert rest[k..] == d + tail;
    assert IsDigit(d[0]) && rest[k] == d[0];
    DigitPrefixOfDigits(d, tail);
  }

  /** strtol over whitespace, a formatted number and a non-digit tail reads exactly the number. */
  lemma StrtolOfFormat(ws: seq<char>, n: int, tail: seq<char>)
    requires forall i :: 0 <= i < |ws| ==> IsSpace(ws[i])
    requires tail != [] ==> !IsDigit(tail[0])
    ensures var c := Strtol(ws + FormatInt(n) + tail);
      && c.end == |ws| + |FormatInt(n)| && c.end > 0
      && c.erange == (n < LONG_MIN || n > LONG_MAX)
      && (!c.erange ==> c.value == n)
  {
    var m: nat := if n < 0 then -n else n;
    DigitsValueOfFormat(m);
    StrtolOfParts(ws, FormatInt(n), tail, n < 0, FormatNat(m));
  }

  /** str_to_int reads back every int printf("%d") writes, after any leading whitespace. */
  lemma StrToIntOfFormat(ws: seq<char>, n: int)
    requires forall i :: 0 <= i < |ws| ==> IsSpace(ws[i])
    requires INT_MIN <= n <= INT_MAX
    ensures StrToInt(ws + FormatInt(n)) == Some(n)
  {
    StrtolOfFormat(ws, n, []);
    assert ws + FormatInt(n) + [] == ws + FormatInt(n);
  }

  /** A number outside `int` is rejected, whether strtol clamped it or not. */
  lemma StrToIntOutOfRange(n: int)
    requires n < INT_MIN || n > INT_MAX
    ensures StrToInt(FormatInt(n)) == None
  {
    StrtolOfFormat([], n, []);
    assert [] + FormatInt(n) + [] == FormatInt(n);
  }

  /** Any character after the number, other than a further digit, is rejected. */
  lemma StrToIntTrailing(n: int, tail: seq<char>)
    requires tail != [] && !IsDigit(tail[0])
    ensures StrToInt(FormatInt(n) + tail) == None
  {
    var s := FormatInt(n) + tail;
    assert s == [] + FormatInt(n) + tail;
    StrtolOfFormat([], n, tail);
    assert Strtol(s).end < |s|;
  }

  /** A string without a digit converts nothing and is rejected. */
  lemma StrToIntNoDigits(s: seq<char>)
    requires forall i :: 0 <= i < |s| ==> !IsDigit(s[i])
    ensures StrToInt(s) == None
  {
    var ws := SpacePrefix(s);
    var rest := s[ws..];
    var signLen := if rest != [] && (rest[0] == '-' || rest[0] == '+') then 1 else 0;
    assert rest[signLen..] == [] || !IsDigit(rest[signLen..][0]);
  }

  // ---------------------------------------------------------------------------------
  // is_numeric (lines 179-200)
  // ---------------------------------------------------------------------------------

  /** is_numeric: a non-empty string of digits, after at most one leading '-'. */
  function IsNumeric(s: seq<char>): (r: bool)
    ensures r ==> s != [] && !IsSpace(s[0]) && s[0] != '+'
  {
    if s == [] then false
    else
      var digits := if s[0] == '-' then s[1..] else s;
      digits != [] && AllDigits(digits)
  }

  /** The number a numeric string spells. */
  function NumericValue(s: seq<char>): int
    requires IsNumeric(s)
  {
    var d: int := if s[0] == '-' then DigitsValue(s[1..]) else DigitsValue(s);
    if s[0] == '-' then -d else d
  }

  /** Every number printf("%d") writes is numeric, and spells itself. */
  lemma FormatIsNumeric(n: int)
    ensures IsNumeric(FormatInt(n)) && NumericValue(FormatInt(n)) == n
  {
    var m: nat := if n < 0 then -n else n;
    DigitsValueOfFormat(m);
    assert IsDigit(FormatNat(m)[0]);
    if n < 0 {
      assert FormatInt(n)[1..] == FormatNat(m);
    }
  }

  /**
   * A numeric string converts in full: str_to_int accepts it exactly when its value is
   * an int, and then yields that value.
   */
  lemma NumericConverts(s: seq<char>)
    requires IsNumeric(s)
    ensures StrToInt(s) == if INT_MIN <= NumericValue(s) <= INT_MAX then Some(NumericValue(s)) else None
  {
    var neg := s[0] == '-';
    var digits := if neg then s[1..] else s;
    assert SpacePrefix(s) == 0;
    assert s[0..] == s;
    var signLen := if neg then 1 else 0;
    assert s[signLen..] == digits + [];
    DigitPrefixOfDigits(digits, []);
    assert s[signLen..][..|digits|] == digits;
    if !neg {
      assert IsDigit(s[0]);
    }
  }

  // ---------------------------------------------------------------------------------
  // trim_whitespace (lines 151-173)
  // ---------------------------------------------------------------------------------

  /** Every character of s[lo..hi] satisfies isspace. */
  predicate SpaceBetween(s: seq<char>, lo: int, hi: int) {
    forall k :: lo <= k < hi && 0 <= k < |s| ==> IsSpace(s[k])
  }

  /** The number of trailing characters of `s` satisfying isspace. */
  function SpaceSuffix(s: seq<char>): (n: nat)
    ensures n <= |s| && SpaceBetween(s, |s| - n, |s|) && (n < |s| ==> !IsSpace(s[|s| - n - 1]))
  {
    if s == [] || !IsSpace(s[|s| - 1]) then 0 else SpaceSuffix(s[..|s| - 1]) + 1
  }

  /** A run of leading whitespace that ends at the first other character is the one SpacePrefix counts. */
  lemma SpacePrefixIs(s: seq<char>, i: nat)
    requires i <= |s| && SpaceBetween(s, 0, i) && (i < |s| ==> !IsSpace(s[i]))
    ensures SpacePrefix(s) == i
  {
  }

  /** A run of trailing whitespace that starts after the last other character is the one SpaceSuffix counts. */
  lemma SpaceSuffixIs(s: seq<char>, j: nat)
    requires j <= |s| && SpaceBetween(s, j, |s|) && (j > 0 ==> !IsSpace(s[j - 1]))
    ensures SpaceSuffix(s) == |s| - j
  {
  }

  /** `s` with its leading and trailing whitespace removed. */
  function Trimmed(s: seq<char>): seq<char>
  {
    var i, j := SpacePrefix(s), |s| - SpaceSuffix(s);
    if i <= j then s[i..j] else []
  }

  /**
   * The trimmed string is the middle part s[i..j] whose outer parts are all whitespace
   * and whose own ends are not.
   */
  lemma TrimmedIsMiddle(s: seq<char>)
    ensures exists i, j ::
      && 0 <= i <= j <= |s| && Trimmed(s) == s[i..j]
      && SpaceBetween(s, 0, i) && SpaceBetween(s, j, |s|)
      && (i < j ==> !IsSpace(s[i]) && !IsSpace(s[j - 1]))
  {
    var i, j := SpacePrefix(s), |s| - SpaceSuffix(s);
    if i <= j {
      assert Trimmed(s) == s[i..j];
    } else {
      assert SpaceBetween(s, 0, |s|);
      assert Trimmed(s) == s[|s|..|s|];
    }
  }

  /** A string trims to nothing exactly when it is all whitespace. */
  lemma TrimmedEmpty(s: seq<char>)
    ensures SpaceBetween(s, 0, |s|) <==> Trimmed(s) == []
  {
    var i, j := SpacePrefix(s), |s| - SpaceSuffix(s);
    if SpaceBetween(s, 0, |s|) {
      SpacePrefixIs(s, |s|);
    }
    if i < j {
      assert Trimmed(s)[0] == s[i];
    }
  }

  /** A string whose ends are not whitespace is its own trim. */
  lemma TrimmedOfTrimmed(r: seq<char>)
    requires r != [] ==> !IsSpace(r[0]) && !IsSpace(r[|r| - 1])
    ensures Trimmed(r) == r
  {
    if r != [] {
      SpacePrefixIs(r, 0);
      SpaceSuffixIs(r, |r|);
      assert r[0..|r|] == r;
    }
  }

  /** Trimming twice trims no more than trimming once. */
  lemma TrimIdempotent(s: seq<char>)
    ensures Trimmed(Trimmed(s)) == Trimmed(s)
  {
    var i, j := SpacePrefix(s), |s| - SpaceSuffix(s);
    if i < j {
      assert Trimmed(s)[0] == s[i];
      assert Trimmed(s)[j - i - 1] == s[j - 1];
    }
    TrimmedOfTrimmed(Trimmed(s));
  }

  /**
   * A buffer whose string is `CStr(before)`, with a NUL written at the end of its trimmed
   * part, holds the trimmed string from the first non-whitespace character on.
   */
  lemma TrimCut(before: seq<char>, start: nat, cut: nat)
    requires NUL in before
    requires start == SpacePrefix(CStr(before)) && cut == |CStr(before)| - SpaceSuffix(CStr(before))
    requires start <= cut
    ensures start + |Trimmed(CStr(before))| == cut
    ensures var after := before[cut := NUL]; NUL in after[start..] && CStr(after[start..]) == Trimmed(CStr(before))
  {
    var s := CStr(before);
    var after := before[cut := NUL];
    assert Trimmed(s) == s[start..cut];
    assert after[start..][..cut - start] == s[start..cut];
    CStrOf(after[start..], s[start..cut]);
  }

  /** The first loop of trim_whitespace: the offset of the first character that is not whitespace. */
  method SkipLeadingSpace(a: array<char>, len: nat) returns (start: nat)
    requires NUL in a[..] && len == CLen(a[..])
    ensures start == SpacePrefix(CStr(a[..])) && start <= len
  {
    ghost var s := CStr(a[..]);
    start := 0;
    while IsSpace(a[start])
      invariant start <= len && SpaceBetween(s, 0, start)
      decreases len - start
    {
      start := start + 1;
    }
    SpacePrefixIs(s, start);
  }

  /** The second loop of trim_whitespace: the offset of the last character that is not whitespace. */
  method LastNonSpace(a: array<char>, start: nat, len: nat) returns (end: nat)
    requires NUL in a[..] && len == CLen(a[..])
    requires start < len && !IsSpace(a[start])
    ensures start <= end < len && end + 1 == len - SpaceSuffix(CStr(a[..]))
  {
    ghost var s := CStr(a[..]);
    end := len - 1;
    while end > start && IsSpace(a[end])
      invariant start <= end < len && SpaceBetween(s, end + 1, len)
    {
      end := end - 1;
    }
    SpaceSuffixIs(s, end + 1);
  }

  /**
   * trim_whitespace on a buffer: the offset of the trimmed string, which now ends with a
   * NUL written over the first trailing whitespace character. `cut` is where that NUL
   * went (the old terminator when the string is all whitespace).
   */
  method TrimWhitespace(a: array<char>) returns (start: nat, ghost cut: nat)
    requires NUL in a[..]
    modifies a
    ensures start <= cut == start + |Trimmed(CStr(old(a[..])))| <= |CStr(old(a[..]))|
    ensures a[..] == old(a[..])[cut := NUL]
    ensures NUL in a[start..] && CStr(a[start..]) == Trimmed(CStr(old(a[..])))
  {
    ghost var before := a[..];
    var len := CLen(a[..]);
    start := SkipLeadingSpace(a, len);
    if a[start] == NUL {
      ghost var s := CStr(before);
      SpaceSuffixIs(s, 0);
      cut := len;
      assert before[cut := NUL] == before;
      assert Trimmed(s) == [];
      CStrOf(a[start..], []);
      return;
    }
    var end := LastNonSpace(a, start, len);
    a[end + 1] := NUL;
    cut := end + 1;
    TrimCut(before, start, cut);
  }
}
