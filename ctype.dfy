/**
 * The character classes of <ctype.h> in the "C" locale and the strlen/strcmp of
 * <string.h>, as the string code of the repository uses them. A C string is a `seq<char>` holding no NUL; its characters are
 * the bytes of the C `char` buffer.
 */
module CType {
  const NUL: char := '\0'

  /** isspace: space and the codes 9 to 13 (\t, \n, \v, \f, \r). */
  predicate IsSpace(c: char) {
    c == ' ' || '\t' <= c <= '\r'
  }

  /** isdigit. */
  predicate IsDigit(c: char) {
    '0' <= c <= '9'
  }

  /** islower. */
  predicate IsLower(c: char) {
    'a' <= c <= 'z'
  }

  /** isupper. */
  predicate IsUpper(c: char) {
    'A' <= c <= 'Z'
  }

  /** isalpha. */
  predicate IsAlpha(c: char) {
    IsLower(c) || IsUpper(c)
  }

  /** ispunct: a printable character that is neither a letter, a digit nor a space. */
  predicate IsPunct(c: char) {
    '!' <= c <= '~' && !IsAlpha(c) && !IsDigit(c)
  }

  /** tolower. */
  function ToLower(c: char): (r: char)
    ensures IsUpper(c) ==> IsLower(r) && r as int == c as int + 32
    ensures !IsUpper(c) ==> r == c
    ensures !IsUpper(r)
  {
    if IsUpper(c) then (c as int + 32) as char else c
  }

  /** The value of a decimal digit. */
  function DigitValue(c: char): (r: nat)
    requires IsDigit(c)
    ensures r < 10
  {
    c as int - '0' as int
  }

  /** The digit of a value below 10. */
  function DigitChar(d: nat): (r: char)
    requires d < 10
    ensures IsDigit(r) && DigitValue(r) == d
  {
    ('0' as int + d) as char
  }

  /** A C string: no character is NUL. */
  predicate NoNul(s: seq<char>) {
    forall i :: 0 <= i < |s| ==> s[i] != NUL
  }

  /** strlen of the NUL-terminated string a buffer starts with. */
  function CLen(s: seq<char>): (n: nat)
    requires NUL in s
    ensures n < |s| && s[n] == NUL && NoNul(s[..n])
  {
    if s[0] == NUL then 0
    else
      var n := CLen(s[1..]);
      assert s[1..][..n] == s[1..n + 1];
      n + 1
  }

  /** The NUL-terminated string a buffer starts with. */
  function CStr(s: seq<char>): (r: seq<char>)
    requires NUL in s
    ensures NoNul(r) && |r| < |s| && r == s[..|r|] && s[|r|] == NUL
  {
    s[..CLen(s)]
  }

  /** A buffer holding `str` and its terminator starts with exactly that string. */
  lemma {:induction false} CStrOf(s: seq<char>, str: seq<char>)
    requires |str| < |s| && s[..|str|] == str && NoNul(str) && s[|str|] == NUL
    ensures NUL in s && CStr(s) == str
  {
    assert s[|str|] == NUL;
    if str != [] {
      assert s[0] != NUL by {
        assert s[0] == str[0];
      }
      CStrOf(s[1..], str[1..]);
      assert s[1..][..|str| - 1] == str[1..];
    }
  }

  /**
   * strcmp: the difference of the first pair of bytes that differ, the end of a string
   * reading as NUL; 0 for equal strings.
   */
  function Strcmp(a: seq<char>, b: seq<char>): int {
    var x := if a == [] then 0 else a[0] as int;
    var y := if b == [] then 0 else b[0] as int;
    if x != y then x - y
    else if a == [] || b == [] then 0
    else Strcmp(a[1..], b[1..])
  }

  /** Swapping the arguments of strcmp negates the result. */
  lemma {:induction false} StrcmpSwap(a: seq<char>, b: seq<char>)
    ensures Strcmp(b, a) == -Strcmp(a, b)
    decreases |a|
  {
    if a != [] && b != [] && a[0] == b[0] {
      StrcmpSwap(a[1..], b[1..]);
    }
  }

  /** On C strings, strcmp is 0 exactly for equal strings. */
  lemma {:induction false} StrcmpZero(a: seq<char>, b: seq<char>)
    requires NoNul(a) && NoNul(b)
    ensures Strcmp(a, b) == 0 <==> a == b
    decreases |a|
  {
    if a != [] && b != [] && a[0] == b[0] {
      StrcmpZero(a[1..], b[1..]);
      assert a == [a[0]] + a[1..] && b == [b[0]] + b[1..];
    } else if a != [] && b == [] {
      assert a[0] != NUL;
    } else if a == [] && b != [] {
      assert b[0] != NUL;
    }
  }

  /** On C strings, "strcmp is negative" is transitive. */
  lemma {:induction false} StrcmpTransitive(a: seq<char>, b: seq<char>, c: seq<char>)
    requires NoNul(a) && NoNul(b) && NoNul(c)
    requires Strcmp(a, b) < 0 && Strcmp(b, c) < 0
    ensures Strcmp(a, c) < 0
    decreases |a|
  {
    if a != [] && b != [] && c != [] && a[0] == b[0] && b[0] == c[0] {
      StrcmpTransitive(a[1..], b[1..], c[1..]);
    } else if b == [] {
      assert a != [] ==> a[0] != NUL;
    } else if c == [] {
      assert b[0] != NUL;
      assert a != [] ==> a[0] != NUL;
    }
  }
}
