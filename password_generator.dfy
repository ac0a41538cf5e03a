/**
 * The password generator's core: the options and their defaults, the character set built
 * from them, password generation with `rand()` as an index oracle, and the integer part
 * of the strength analysis.
 */
module PasswordGenerator {
  import opened CType
  import opened Utils

  const MAX_PASSWORD_LENGTH := 128
  const MIN_PASSWORD_LENGTH := 4
  /** LOWERCASE_CHARS, `a` to `z` (see SetsAreTheMacros). */
  const LOWERCASE_CHARS: seq<char> := Range('a', 26)
  /** UPPERCASE_CHARS, `A` to `Z`. */
  const UPPERCASE_CHARS: seq<char> := Range('A', 26)
  /** DIGIT_CHARS, `0` to `9`. */
  const DIGIT_CHARS: seq<char> := Range('0', 10)
  /** SPECIAL_CHARS. */
  const SPECIAL_CHARS: seq<char> := Copy("!@#$%^&*()_+-=[]{}|;:,.<>?")
  const SIMILAR_CHARS: seq<char> := "il1Lo0O"
  /** The size of the local charset buffer of generate_password. */
  const CHARSET_SIZE := 512

  /** The `n` consecutive characters from `first`. */
  function Range(first: char, n: nat): (r: seq<char>)
    requires first as int + n <= 128
    ensures |r| == n && forall i :: 0 <= i < n ==> r[i] == (first as int + i) as char
  {
    seq(n, i requires 0 <= i < n => (first as int + i) as char)
  }

  /** The characters of `s`, one by one. */
  function Copy(s: seq<char>): (r: seq<char>)
    ensures |r| == |s| && forall i :: 0 <= i < |s| ==> r[i] == s[i]
  {
    seq(|s|, i requires 0 <= i < |s| => s[i])
  }

  /** PasswordOptions. `excludeAmbiguous` is kept but, as in the program, has no effect. */
  datatype PasswordOptions = PasswordOptions(
    includeLowercase: bool, includeUppercase: bool, includeDigits: bool, includeSpecial: bool,
    excludeSimilar: bool, excludeAmbiguous: bool, length: int)

  /** init_password_options: lower, upper and digits on, special and both exclusions off, length 12. */
  const DefaultOptions := PasswordOptions(true, true, true, false, false, false, 12)

  /** The options the program ever holds: the default length, or one read and checked against 4..128. */
  predicate ValidOptions(o: PasswordOptions) {
    MIN_PASSWORD_LENGTH <= o.length <= MAX_PASSWORD_LENGTH
  }

  /** At least one character set is enabled. */
  predicate AnySet(o: PasswordOptions) {
    o.includeLowercase || o.includeUppercase || o.includeDigits || o.includeSpecial
  }

  // ---------------------------------------------------------------------------------
  // The character set
  // ---------------------------------------------------------------------------------

  /** The enabled sets concatenated in the order lower, upper, digits, special. */
  function Joined(o: PasswordOptions): seq<char> {
    (if o.includeLowercase then LOWERCASE_CHARS else [])
    + (if o.includeUppercase then UPPERCASE_CHARS else [])
    + (if o.includeDigits then DIGIT_CHARS else [])
    + (if o.includeSpecial then SPECIAL_CHARS else [])
  }

  /** `s` without the characters of `il1Lo0O`, in the same order. */
  function WithoutSimilar(s: seq<char>): (r: seq<char>)
    ensures |r| <= |s|
    ensures forall c :: c in r <==> c in s && c !in SIMILAR_CHARS
  {
    if s == [] then []
    else
      var r := WithoutSimilar(s[..|s| - 1]);
      assert s == s[..|s| - 1] + [s[|s| - 1]];
      if s[|s| - 1] in SIMILAR_CHARS then r else r + [s[|s| - 1]]
  }

  /** Filtering one more character of `s`. */
  lemma WithoutSimilarStep(s: seq<char>, i: nat)
    requires i < |s|
    ensures WithoutSimilar(s[..i + 1]) ==
      if s[i] in SIMILAR_CHARS then WithoutSimilar(s[..i]) else WithoutSimilar(s[..i]) + [s[i]]
    ensures |WithoutSimilar(s[..i])| <= i
  {
    assert s[..i + 1][..i] == s[..i];
  }

  /** The character set build_charset produces. */
  function Charset(o: PasswordOptions): seq<char> {
    if o.excludeSimilar then WithoutSimilar(Joined(o)) else Joined(o)
  }

  /** The four sets hold no NUL, so each is a C string. */
  lemma SetsNoNul()
    ensures NoNul(LOWERCASE_CHARS) && NoNul(UPPERCASE_CHARS) && NoNul(DIGIT_CHARS) && NoNul(SPECIAL_CHARS)
  {
  }

  /** The four sets are the macros' string literals. */
  lemma SetsAreTheMacros()
    ensures LOWERCASE_CHARS == "abcdefghijklmnopqrstuvwxyz"
    ensures UPPERCASE_CHARS == "ABCDEFGHIJKLMNOPQRSTUVWXYZ"
    ensures DIGIT_CHARS == "0123456789"
    ensures SPECIAL_CHARS == "!@#$%^&*()_+-=[]{}|;:,.<>?"
  {
  }

  /** The lowercase set is exactly islower. */
  lemma LowercaseIs(c: char)
    ensures c in LOWERCASE_CHARS <==> IsLower(c)
  {
    if IsLower(c) {
      assert LOWERCASE_CHARS[c as int - 'a' as int] == c;
    }
  }

  /** The uppercase set is exactly isupper. */
  lemma UppercaseIs(c: char)
    ensures c in UPPERCASE_CHARS <==> IsUpper(c)
  {
    if IsUpper(c) {
      assert UPPERCASE_CHARS[c as int - 'A' as int] == c;
    }
  }

  /** The digit set is exactly isdigit. */
  lemma DigitsAre(c: char)
    ensures c in DIGIT_CHARS <==> IsDigit(c)
  {
    if IsDigit(c) {
      assert DIGIT_CHARS[c as int - '0' as int] == c;
    }
  }

  /** A character is in the set exactly when one of the enabled sets holds it and it is not excluded as similar. */
  lemma CharsetMembers(o: PasswordOptions, c: char)
    ensures c in Charset(o) <==>
      && ((o.includeLowercase && c in LOWERCASE_CHARS) || (o.includeUppercase && c in UPPERCASE_CHARS)
          || (o.includeDigits && c in DIGIT_CHARS) || (o.includeSpecial && c in SPECIAL_CHARS))
      && !(o.excludeSimilar && c in SIMILAR_CHARS)
  {
  }

  /** The set is never longer than the four sets together, which fit the 512-byte buffer. */
  lemma CharsetFits(o: PasswordOptions)
    ensures |Charset(o)| <= |Joined(o)| <= 88 < CHARSET_SIZE
  {
  }

  /** With a set enabled the character set is not empty, whether or not similar characters are excluded. */
  lemma CharsetNonEmpty(o: PasswordOptions)
    requires AnySet(o)
    ensures |Charset(o)| > 0
  {
    var c := if o.includeLowercase then 'a' else if o.includeUppercase then 'A' else if o.includeDigits then '2' else '!';
    assert c !in SIMILAR_CHARS;
    CharsetMembers(o, c);
  }

  /** The default options give the 62 letters and digits. */
  lemma DefaultCharset()
    ensures Charset(DefaultOptions) == LOWERCASE_CHARS + UPPERCASE_CHARS + DIGIT_CHARS
    ensures |Charset(DefaultOptions)| == 62 && ValidOptions(DefaultOptions)
  {
  }

  /**
   * The first half of build_charset: appends `chars` when `enabled` holds, failing exactly
   * when the buffer cannot take it.
   */
  method AppendSet(charset: array<char>, enabled: bool, chars: seq<char>, ghost built: seq<char>) returns (ok: bool)
    requires charset.Length > 0 && NUL in charset[..] && CStr(charset[..]) == built && NoNul(chars)
    modifies charset
    ensures ok <==> !enabled || |built| + |chars| < charset.Length
    ensures ok ==> NUL in charset[..] && CStr(charset[..]) == built + (if enabled then chars else [])
  {
    ok := true;
    if enabled {
      ok := SafeStrcat(charset, chars);
    }
  }

  /** The second half of build_charset: the buffer's string again, without the similar characters. */
  method DropSimilar(charset: array<char>)
    requires charset.Length > 0 && NUL in charset[..]
    modifies charset
    ensures NUL in charset[..] && CStr(charset[..]) == WithoutSimilar(old(CStr(charset[..])))
  {
    var temp := CStr(charset[..]);
    charset[0] := NUL;
    CStrOf(charset[..], []);
    var i := 0;
    while i < |temp|
      invariant 0 <= i <= |temp| < charset.Length && NoNul(temp) && NUL in charset[..]
      invariant CStr(charset[..]) == WithoutSimilar(temp[..i])
    {
      WithoutSimilarStep(temp, i);
      if temp[i] !in SIMILAR_CHARS {
        var ok := SafeStrcat(charset, [temp[i]]);
        // The filtered prefix is no longer than the string that already fitted.
        assert ok;
      }
      i := i + 1;
    }
    assert temp[..i] == temp;
  }

  /** The appends of build_charset: the enabled sets in order, failing exactly when they do not all fit. */
  method AppendSets(o: PasswordOptions, charset: array<char>) returns (ok: bool)
    requires charset.Length > 0 && NUL in charset[..] && CStr(charset[..]) == []
    modifies charset
    ensures ok <==> |Joined(o)| < charset.Length
    ensures ok ==> NUL in charset[..] && CStr(charset[..]) == Joined(o)
  {
    SetsNoNul();
    ghost var lower := if o.includeLowercase then LOWERCASE_CHARS else [];
    ghost var upper := if o.includeUppercase then UPPERCASE_CHARS else [];
    ghost var digits := if o.includeDigits then DIGIT_CHARS else [];
    ghost var special := if o.includeSpecial then SPECIAL_CHARS else [];
    assert Joined(o) == lower + upper + digits + special;
    assert [] + lower == lower;
    ok := AppendSet(charset, o.includeLowercase, LOWERCASE_CHARS, []);
    if !ok {
      return;
    }
    ok := AppendSet(charset, o.includeUppercase, UPPERCASE_CHARS, lower);
    if !ok {
      return;
    }
    ok := AppendSet(charset, o.includeDigits, DIGIT_CHARS, lower + upper);
    if !ok {
      return;
    }
    ok := AppendSet(charset, o.includeSpecial, SPECIAL_CHARS, lower + upper + digits);
  }

  /**
   * build_charset: the length of the set it leaves in the buffer, or 0 when the buffer is
   * empty or the enabled sets do not fit it.
   */
  method BuildCharset(o: PasswordOptions, charset: array<char>) returns (n: int)
    modifies charset
    ensures charset.Length > 0 && |Joined(o)| < charset.Length ==>
      && NUL in charset[..] && CStr(charset[..]) == Charset(o) && n == |Charset(o)|
    ensures !(charset.Length > 0 && |Joined(o)| < charset.Length) ==> n == 0
  {
    if charset.Length == 0 {
      return 0;
    }
    charset[0] := NUL;
    CStrOf(charset[..], []);
    var ok := AppendSets(o, charset);
    if !ok {
      return 0;
    }
    if o.excludeSimilar {
      DropSimilar(charset);
    }
    n := CLen(charset[..]);
  }

  // ---------------------------------------------------------------------------------
  // Generation
  // ---------------------------------------------------------------------------------

  /** The character `rand()` selects from a pool: `pool[rand() % strlen(pool)]`. */
  function Pick(pool: seq<char>, r: nat): (c: char)
    requires |pool| > 0
    ensures c in pool
  {
    pool[r % |pool|]
  }

  /** The first loop of generate_password: character `i` is picked with the `i`-th value of `rand()`. */
  function Drawn(cs: seq<char>, n: nat, rand: nat -> nat): (p: seq<char>)
    requires |cs| > 0
    ensures |p| == n && forall i :: 0 <= i < n ==> p[i] in cs
  {
    var p := seq(n, i requires 0 <= i < n => Pick(cs, rand(i)));
    assert forall i :: 0 <= i < n ==> p[i] == Pick(cs, rand(i));
    p
  }

  /** strpbrk(p, chars) != NULL: some character of `p` is one of `chars`. */
  predicate Meets(p: seq<char>, chars: seq<char>) {
    exists i :: 0 <= i < |p| && p[i] in chars
  }

  /** needs_adjustment: an enabled set has no character in the password. */
  predicate NeedsAdjustment(o: PasswordOptions, p: seq<char>) {
    || (o.includeLowercase && !Meets(p, LOWERCASE_CHARS))
    || (o.includeUppercase && !Meets(p, UPPERCASE_CHARS))
    || (o.includeDigits && !Meets(p, DIGIT_CHARS))
    || (o.includeSpecial && !Meets(p, SPECIAL_CHARS))
  }

  /**
   * One step of the adjustment as written: when the set is enabled and the password,
   * as it is now, has none of its characters, position `pos` receives a character of
   * the full set picked with the `k`-th value of `rand()`.
   */
  function FixAsWritten(p: seq<char>, pos: nat, k: nat, enabled: bool, chars: seq<char>, rand: nat -> nat): (r: (seq<char>, nat, nat))
    requires pos < |p| && |chars| > 0
    ensures |r.0| == |p| && r.1 <= pos + 1
  {
    if enabled && !Meets(p, chars) then (p[pos := Pick(chars, rand(k))], pos + 1, k + 1) else (p, pos, k)
  }

  /** The adjustment of generate_password as written: the four steps in order, from position 0. */
  function AdjustAsWritten(o: PasswordOptions, p: seq<char>, rand: nat -> nat): (r: seq<char>)
    ensures |r| == |p|
  {
    if NeedsAdjustment(o, p) && |p| >= 4 then
      var a := FixAsWritten(p, 0, |p|, o.includeLowercase, LOWERCASE_CHARS, rand);
      var b := FixAsWritten(a.0, a.1, a.2, o.includeUppercase, UPPERCASE_CHARS, rand);
      var c := FixAsWritten(b.0, b.1, b.2, o.includeDigits, DIGIT_CHARS, rand);
      FixAsWritten(c.0, c.1, c.2, o.includeSpecial, SPECIAL_CHARS, rand).0
    else p
  }

  /**
   * With the default options, a draw whose only lowercase letter is at position 0 and
   * which has no digit loses its lowercase letter: the digit is written over it.
   */
  lemma AsWrittenDropsLowercase()
    ensures var p := "aBCDEFGHIJKL";
      && |p| == DefaultOptions.length
      && (forall i :: 0 <= i < |p| ==> p[i] in Charset(DefaultOptions))
      && DefaultOptions.includeLowercase && Meets(p, LOWERCASE_CHARS)
      && !Meets(AdjustAsWritten(DefaultOptions, p, _ => 0), LOWERCASE_CHARS)
  {
    var p := "aBCDEFGHIJKL";
    var o := DefaultOptions;
    var rand: nat -> nat := _ => 0;
    forall i | 0 <= i < |p|
      ensures p[i] in Charset(o) && p[i] !in DIGIT_CHARS && (i > 0 ==> p[i] !in LOWERCASE_CHARS)
    {
      LowercaseIs(p[i]);
      UppercaseIs(p[i]);
      DigitsAre(p[i]);
      CharsetMembers(o, p[i]);
    }
    assert Meets(p, LOWERCASE_CHARS) && Meets(p, UPPERCASE_CHARS) by {
      assert p[0] in LOWERCASE_CHARS && p[1] in UPPERCASE_CHARS;
    }
    var c := FixAsWritten(p, 0, |p|, o.includeDigits, DIGIT_CHARS, rand);
    assert c.0 == p[0 := '0'];
    var r := AdjustAsWritten(o, p, rand);
    assert r == p[0 := '0'];
    forall i | 0 <= i < |r|
      ensures r[i] !in LOWERCASE_CHARS
    {
      LowercaseIs(r[i]);
    }
  }

  /**
   * With similar characters excluded, the adjustment still draws from the full digit
   * set and can write `0`, which the character set leaves out.
   */
  lemma AsWrittenInsertsSimilar()
    ensures var o := DefaultOptions.(excludeSimilar := true, length := 4);
      var p := "aBCD";
      && |p| == o.length
      && (forall i :: 0 <= i < |p| ==> p[i] in Charset(o))
      && AdjustAsWritten(o, p, _ => 0)[0] == '0' && '0' !in Charset(o)
  {
    var o := DefaultOptions.(excludeSimilar := true, length := 4);
    var p := "aBCD";
    SimilarFreeDraw(o, p);
    LettersNoDigit(p);
    DigitAtZero(o, p, _ => 0);
    CharsetMembers(o, '0');
  }

  /** "aBCD" has a lowercase and an uppercase letter and no digit. */
  lemma LettersNoDigit(p: seq<char>)
    requires p == "aBCD"
    ensures Meets(p, LOWERCASE_CHARS) && Meets(p, UPPERCASE_CHARS) && !Meets(p, DIGIT_CHARS)
  {
    forall i | 0 <= i < |p|
      ensures p[i] !in DIGIT_CHARS
    {
      DigitsAre(p[i]);
    }
    LowercaseIs(p[0]);
    UppercaseIs(p[1]);
    assert p[0] in LOWERCASE_CHARS && p[1] in UPPERCASE_CHARS;
  }

  /** With only the digit set unmet, the adjustment as written puts `0` (rand() = 0) at position 0. */
  lemma DigitAtZero(o: PasswordOptions, p: seq<char>, rand: nat -> nat)
    requires o.includeLowercase && o.includeUppercase && o.includeDigits && !o.includeSpecial
    requires |p| == 4 && Meets(p, LOWERCASE_CHARS) && Meets(p, UPPERCASE_CHARS) && !Meets(p, DIGIT_CHARS)
    requires rand(|p|) == 0
    ensures AdjustAsWritten(o, p, rand)[0] == '0'
  {
    var c := FixAsWritten(p, 0, |p|, o.includeDigits, DIGIT_CHARS, rand);
    assert c.0 == p[0 := '0'];
  }

  /** The draw of AsWrittenInsertsSimilar lies in the character set. */
  lemma SimilarFreeDraw(o: PasswordOptions, p: seq<char>)
    requires o == DefaultOptions.(excludeSimilar := true, length := 4) && p == "aBCD"
    ensures forall i :: 0 <= i < |p| ==> p[i] in Charset(o)
  {
    forall i | 0 <= i < |p|
      ensures p[i] in Charset(o)
    {
      LowercaseIs(p[i]);
      UppercaseIs(p[i]);
      CharsetMembers(o, p[i]);
    }
  }

  /** The characters of an enabled set the adjustment may use: the set, without the similar characters when those are excluded. */
  function Pool(o: PasswordOptions, chars: seq<char>): seq<char> {
    if o.excludeSimilar then WithoutSimilar(chars) else chars
  }

  /** The pools of the enabled sets, in the order lower, upper, digits, special. */
  function Pools(o: PasswordOptions): (ps: seq<seq<char>>)
    ensures |ps| <= 4
  {
    (if o.includeLowercase then [Pool(o, LOWERCASE_CHARS)] else [])
    + (if o.includeUppercase then [Pool(o, UPPERCASE_CHARS)] else [])
    + (if o.includeDigits then [Pool(o, DIGIT_CHARS)] else [])
    + (if o.includeSpecial then [Pool(o, SPECIAL_CHARS)] else [])
  }

  /** A pool the adjustment can pick from: non-empty and inside the character set. */
  predicate PoolOK(o: PasswordOptions, pool: seq<char>) {
    |pool| > 0 && forall c :: c in pool ==> c in Charset(o)
  }

  /** The pool of an enabled set is usable: `w` is one of its characters that is never excluded. */
  lemma PoolInCharset(o: PasswordOptions, chars: seq<char>, w: char)
    requires || (chars == LOWERCASE_CHARS && o.includeLowercase) || (chars == UPPERCASE_CHARS && o.includeUppercase)
             || (chars == DIGIT_CHARS && o.includeDigits) || (chars == SPECIAL_CHARS && o.includeSpecial)
    requires w in chars && w !in SIMILAR_CHARS
    ensures PoolOK(o, Pool(o, chars)) && forall c :: c in Pool(o, chars) ==> c in chars
  {
    assert w in Pool(o, chars);
    forall c | c in Pool(o, chars)
      ensures c in Charset(o)
    {
      CharsetMembers(o, c);
    }
  }

  /** A character of each set that is never excluded as similar. */
  lemma Witnesses()
    ensures 'a' in LOWERCASE_CHARS && 'A' in UPPERCASE_CHARS && '2' in DIGIT_CHARS && '!' in SPECIAL_CHARS
    ensures 'a' !in SIMILAR_CHARS && 'A' !in SIMILAR_CHARS && '2' !in SIMILAR_CHARS && '!' !in SIMILAR_CHARS
  {
    assert LOWERCASE_CHARS[0] == 'a' && UPPERCASE_CHARS[0] == 'A' && DIGIT_CHARS[2] == '2' && SPECIAL_CHARS[0] == '!';
  }

  /** Every pool of the enabled sets is usable. */
  lemma PoolsInCharset(o: PasswordOptions)
    ensures forall j :: 0 <= j < |Pools(o)| ==> PoolOK(o, Pools(o)[j])
  {
    Witnesses();
    if o.includeLowercase {
      PoolInCharset(o, LOWERCASE_CHARS, 'a');
    }
    if o.includeUppercase {
      PoolInCharset(o, UPPERCASE_CHARS, 'A');
    }
    if o.includeDigits {
      PoolInCharset(o, DIGIT_CHARS, '2');
    }
    if o.includeSpecial {
      PoolInCharset(o, SPECIAL_CHARS, '!');
    }
  }

  /** Every pool of the enabled sets has a character to pick. */
  lemma PoolsNonEmpty(o: PasswordOptions)
    ensures forall j :: 0 <= j < |Pools(o)| ==> |Pools(o)[j]| > 0
  {
    PoolsInCharset(o);
  }

  /**
   * The adjustment, corrected: when an enabled set is missing, every enabled set gets one
   * character of its pool, each at its own position 0, 1, ..., so that no write undoes
   * an earlier one, picked with the values of `rand()` after the first |p|.
   */
  function Adjust(o: PasswordOptions, p: seq<char>, rand: nat -> nat): (r: seq<char>)
    ensures |r| == |p|
  {
    if NeedsAdjustment(o, p) && |p| >= 4 then
      seq(|p|, i requires 0 <= i < |p| => if i < |Pools(o)| then Picked(o, i, |p|, rand) else p[i])
    else p
  }

  /** The character the adjustment places at position `i` of a password of `n` characters. */
  function Picked(o: PasswordOptions, i: nat, n: nat, rand: nat -> nat): (c: char)
    requires i < |Pools(o)|
    ensures c in Pools(o)[i]
  {
    PoolsNonEmpty(o);
    Pick(Pools(o)[i], rand(n + i))
  }

  /** The password generate_password produces, with the corrected adjustment. */
  function Generated(o: PasswordOptions, rand: nat -> nat): seq<char>
    requires AnySet(o) && ValidOptions(o)
  {
    CharsetNonEmpty(o);
    Adjust(o, Drawn(Charset(o), o.length, rand), rand)
  }

  /** The adjustment keeps a password inside the character set. */
  lemma AdjustInCharset(o: PasswordOptions, p: seq<char>, rand: nat -> nat)
    requires forall c :: c in p ==> c in Charset(o)
    ensures forall i :: 0 <= i < |p| ==> Adjust(o, p, rand)[i] in Charset(o)
  {
    PoolsInCharset(o);
    forall i | 0 <= i < |p|
      ensures Adjust(o, p, rand)[i] in Charset(o)
    {
      AdjustAt(o, p, rand, i);
    }
  }

  /** Position `i` of an adjusted password: a pick from pool `i`, or the drawn character. */
  lemma AdjustAt(o: PasswordOptions, p: seq<char>, rand: nat -> nat, i: nat)
    requires i < |p|
    ensures NeedsAdjustment(o, p) && |p| >= 4 && i < |Pools(o)| ==> Adjust(o, p, rand)[i] == Picked(o, i, |p|, rand)
    ensures !(NeedsAdjustment(o, p) && |p| >= 4 && i < |Pools(o)|) ==> Adjust(o, p, rand)[i] == p[i]
  {
  }

  /** A password whose first positions hold the picks and the rest `d` is the adjustment of `d`. */
  lemma AdjustFrom(o: PasswordOptions, d: seq<char>, rand: nat -> nat, q: seq<char>)
    requires NeedsAdjustment(o, d) && |d| >= 4 && |q| == |d|
    requires forall x :: 0 <= x < |d| ==> q[x] == if x < |Pools(o)| then Picked(o, x, |d|, rand) else d[x]
    ensures q == Adjust(o, d, rand)
  {
    forall x | 0 <= x < |d|
      ensures q[x] == Adjust(o, d, rand)[x]
    {
      AdjustAt(o, d, rand, x);
    }
  }

  /** The character set holds no NUL. */
  lemma CharsetNoNul(o: PasswordOptions)
    ensures NUL !in Charset(o)
  {
    SetsNoNul();
    CharsetMembers(o, NUL);
  }

  /** A generated password has exactly `length` characters, all from the character set. */
  lemma GeneratedInCharset(o: PasswordOptions, rand: nat -> nat)
    requires AnySet(o) && ValidOptions(o)
    ensures var g := Generated(o, rand);
      && |g| == o.length && NoNul(g)
      && (forall i :: 0 <= i < |g| ==> g[i] in Charset(o))
  {
    CharsetNonEmpty(o);
    var d := Drawn(Charset(o), o.length, rand);
    AdjustInCharset(o, d, rand);
    CharsetNoNul(o);
  }

  /** A generated password holds a character of every enabled set. */
  lemma GeneratedCoversSets(o: PasswordOptions, rand: nat -> nat)
    requires AnySet(o) && ValidOptions(o)
    ensures var g := Generated(o, rand);
      && (o.includeLowercase ==> Meets(g, LOWERCASE_CHARS))
      && (o.includeUppercase ==> Meets(g, UPPERCASE_CHARS))
      && (o.includeDigits ==> Meets(g, DIGIT_CHARS))
      && (o.includeSpecial ==> Meets(g, SPECIAL_CHARS))
  {
    CharsetNonEmpty(o);
    var d := Drawn(Charset(o), o.length, rand);
    if NeedsAdjustment(o, d) {
      AdjustedCovers(o, d, rand);
    }
  }

  /** After an adjustment every enabled set is met. */
  lemma AdjustedCovers(o: PasswordOptions, d: seq<char>, rand: nat -> nat)
    requires NeedsAdjustment(o, d) && |d| >= 4
    ensures var g := Adjust(o, d, rand);
      && (o.includeLowercase ==> Meets(g, LOWERCASE_CHARS))
      && (o.includeUppercase ==> Meets(g, UPPERCASE_CHARS))
      && (o.includeDigits ==> Meets(g, DIGIT_CHARS))
      && (o.includeSpecial ==> Meets(g, SPECIAL_CHARS))
  {
    Witnesses();
    var l := if o.includeLowercase then 1 else 0;
    var u := l + if o.includeUppercase then 1 else 0;
    var t := u + if o.includeDigits then 1 else 0;
    if o.includeLowercase {
      CoversOne(o, d, rand, 0, LOWERCASE_CHARS, 'a');
    }
    if o.includeUppercase {
      CoversOne(o, d, rand, l, UPPERCASE_CHARS, 'A');
    }
    if o.includeDigits {
      CoversOne(o, d, rand, u, DIGIT_CHARS, '2');
    }
    if o.includeSpecial {
      CoversOne(o, d, rand, t, SPECIAL_CHARS, '!');
    }
  }

  /** The set whose pool sits at position `k` is met after the adjustment. */
  lemma CoversOne(o: PasswordOptions, d: seq<char>, rand: nat -> nat, k: nat, chars: seq<char>, w: char)
    requires NeedsAdjustment(o, d) && |d| >= 4 && k < |Pools(o)| && Pools(o)[k] == Pool(o, chars)
    requires || (chars == LOWERCASE_CHARS && o.includeLowercase) || (chars == UPPERCASE_CHARS && o.includeUppercase)
             || (chars == DIGIT_CHARS && o.includeDigits) || (chars == SPECIAL_CHARS && o.includeSpecial)
    requires w in chars && w !in SIMILAR_CHARS
    ensures Meets(Adjust(o, d, rand), chars)
  {
    PoolInCharset(o, chars, w);
    AdjustAt(o, d, rand, k);
    assert Adjust(o, d, rand)[k] in chars;
  }

  /** strpbrk(s, chars) != NULL. */
  method Strpbrk(s: seq<char>, chars: seq<char>) returns (found: bool)
    ensures found <==> Meets(s, chars)
  {
    var i := 0;
    while i < |s|
      invariant 0 <= i <= |s| && forall j :: 0 <= j < i ==> s[j] !in chars
    {
      if s[i] in chars {
        return true;
      }
      i := i + 1;
    }
    return false;
  }

  /** The requirement checks of generate_password, one strpbrk per enabled set. */
  method CheckSets(o: PasswordOptions, p: seq<char>) returns (needs: bool)
    ensures needs <==> NeedsAdjustment(o, p)
  {
    needs := false;
    var found := Strpbrk(p, LOWERCASE_CHARS);
    if o.includeLowercase && !found {
      needs := true;
    }
    found := Strpbrk(p, UPPERCASE_CHARS);
    if o.includeUppercase && !found {
      needs := true;
    }
    found := Strpbrk(p, DIGIT_CHARS);
    if o.includeDigits && !found {
      needs := true;
    }
    found := Strpbrk(p, SPECIAL_CHARS);
    if o.includeSpecial && !found {
      needs := true;
    }
  }

  /** The drawing loop of generate_password: `n` characters of the set, then the terminator. */
  method DrawPassword(password: array<char>, n: nat, charset: array<char>, len: nat, rand: nat -> nat, ghost cs: seq<char>)
    requires password != charset && n < password.Length && 0 < len == |cs| <= charset.Length
    requires forall x :: 0 <= x < len ==> charset[x] == cs[x]
    modifies password
    ensures password[..n] == Drawn(cs, n, rand) && password[n] == NUL
  {
    for i := 0 to n
      invariant forall j :: 0 <= j < i ==> password[j] == Pick(cs, rand(j))
    {
      password[i] := charset[rand(i) % len];
    }
    password[n] := NUL;
  }

  /** The adjustment of generate_password, corrected, on the password in the buffer. */
  method AdjustPassword(o: PasswordOptions, password: array<char>, n: nat, rand: nat -> nat)
    requires n < password.Length && n == o.length && ValidOptions(o) && password[n] == NUL
    modifies password
    ensures password[..n] == Adjust(o, old(password[..n]), rand) && password[n] == NUL
  {
    ghost var d := password[..n];
    var needs := CheckSets(o, password[..n]);
    if needs && n >= 4 {
      PlacePicks(o, password, n, rand);
      AdjustFrom(o, d, rand, password[..n]);
    } else {
      assert Adjust(o, d, rand) == d;
    }
  }

  /** The placing loop: position `j` of each enabled set's pool gets a character of that pool. */
  method PlacePicks(o: PasswordOptions, password: array<char>, n: nat, rand: nat -> nat)
    requires |Pools(o)| <= n < password.Length
    modifies password
    ensures forall x :: 0 <= x < password.Length ==>
      password[x] == if x < |Pools(o)| then Picked(o, x, n, rand) else old(password[x])
  {
    var ps := Pools(o);
    PoolsNonEmpty(o);
    PickInto(ps, password, n, rand);
  }

  /** The loop itself: position `j` gets a character of pool `j`, chosen by `rand(n + j)`. */
  method PickInto(ps: seq<seq<char>>, password: array<char>, n: nat, rand: nat -> nat)
    requires |ps| <= n < password.Length && forall j :: 0 <= j < |ps| ==> |ps[j]| > 0
    modifies password
    ensures forall x :: 0 <= x < password.Length ==>
      password[x] == if x < |ps| then Pick(ps[x], rand(n + x)) else old(password[x])
  {
    for j := 0 to |ps|
      invariant forall x :: 0 <= x < password.Length ==>
        password[x] == if x < j then Pick(ps[x], rand(n + x)) else old(password[x])
    {
      password[j] := ps[j][rand(n + j) % |ps[j]|];
    }
  }

  /**
   * generate_password: fails, leaving the buffer alone, on an empty buffer, with no set
   * enabled, or when the buffer cannot hold `length` characters and the terminator;
   * otherwise writes the generated password and its terminator.
   */
  method GeneratePassword(o: PasswordOptions, password: array<char>, rand: nat -> nat) returns (ok: bool)
    requires ValidOptions(o)
    modifies password
    ensures ok <==> password.Length > 0 && AnySet(o) && password.Length >= o.length + 1
    ensures ok ==> password[o.length] == NUL && password[..o.length] == Generated(o, rand)
    ensures !ok ==> password[..] == old(password[..])
  {
    if password.Length == 0 || !AnySet(o) {
      return false;
    }
    var charset := new char[CHARSET_SIZE];
    var len := BuildCharset(o, charset);
    CharsetFits(o);
    CharsetNonEmpty(o);
    ghost var cs := Charset(o);
    // build_charset cannot fail here: the enabled sets fit the buffer and one of them is enabled.
    assert len > 0 && forall x :: 0 <= x < len ==> charset[x] == cs[x];
    assert len == |cs| <= charset.Length;
    if password.Length < o.length + 1 {
      return false;
    }
    DrawPassword(password, o.length, charset, len, rand, cs);
    AdjustPassword(o, password, o.length, rand);
    ok := true;
  }
}
