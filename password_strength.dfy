/**
 * The integer part of analyze_password_strength: character classes, distinct characters,
 * the score and the strength level it earns.
 */
module PasswordStrength {
  import opened CType
  import opened PasswordGenerator

  /** PasswordStrength, from STRENGTH_VERY_WEAK (0) to STRENGTH_VERY_STRONG (5). */
  datatype Strength = VeryWeak | Weak | Fair | Good | Strong | VeryStrong

  /** The enumerator's value. */
  function Level(s: Strength): (n: nat)
    ensures n <= 5
  {
    match s
    case VeryWeak => 0
    case Weak => 1
    case Fair => 2
    case Good => 3
    case Strong => 4
    case VeryStrong => 5
  }

  /** The level a score earns: 80, 60, 40, 20 and 10 are the lower bounds of the five upper levels. */
  function StrengthOf(score: int): (s: Strength)
    ensures s == VeryStrong <==> score >= 80
    ensures s == VeryWeak <==> score < 10
    ensures Level(s) >= 4 <==> score >= 60
    ensures Level(s) >= 3 <==> score >= 40
    ensures Level(s) >= 2 <==> score >= 20
  {
    if score >= 80 then VeryStrong
    else if score >= 60 then Strong
    else if score >= 40 then Good
    else if score >= 20 then Fair
    else if score >= 10 then Weak
    else VeryWeak
  }

  /** A higher score never earns a lower level. */
  lemma StrengthMonotone(a: int, b: int)
    requires a <= b
    ensures Level(StrengthOf(a)) <= Level(StrengthOf(b))
  {
  }

  /** The length score: 25 from 8 characters, 10 from 6, 5 from 4, none below. */
  function LengthScore(n: nat): (r: int)
    ensures r == 0 <==> n < 4
    ensures r == 25 <==> n >= 8
  {
    if n >= 8 then 25 else if n >= 6 then 10 else if n >= 4 then 5 else 0
  }

  /**
   * The unique-character bonus: 10 when at least 80% of the characters are distinct,
   * else 5 when at least 60% are. The comparison is exact here (see README).
   */
  function UniqueBonus(unique: nat, n: nat): (r: int)
    ensures r == 10 <==> 5 * unique >= 4 * n
    ensures r == 0 <==> 5 * unique < 3 * n
  {
    if 5 * unique >= 4 * n then 10 else if 5 * unique >= 3 * n then 5 else 0
  }

  /** The length bonus as written: the 12-character test comes first, so 20 is never awarded. */
  function LengthBonusAsWritten(n: nat): (r: int)
    ensures r != 20
    ensures r == 10 <==> n >= 12
  {
    if n >= 12 then 10 else if n >= 16 then 20 else 0
  }

  /** The length bonus as intended: 20 from 16 characters, 10 from 12. */
  function LengthBonus(n: nat): (r: int)
    ensures r == 20 <==> n >= 16
    ensures r == 10 <==> 12 <= n < 16
  {
    if n >= 16 then 20 else if n >= 12 then 10 else 0
  }

  /** The character-class findings and the distinct-character count of one password. */
  datatype Classes = Classes(lower: bool, upper: bool, digits: bool, special: bool, unique: nat)

  /** The diversity score: 5 each for lowercase, uppercase and digits, 10 for special characters. */
  function DiversityScore(k: Classes): (r: int)
    ensures 0 <= r <= 25
    ensures r == 25 <==> k.lower && k.upper && k.digits && k.special
  {
    (if k.lower then 5 else 0) + (if k.upper then 5 else 0)
    + (if k.digits then 5 else 0) + (if k.special then 10 else 0)
  }

  /** The score as written, with the unreachable 20-point bonus. */
  function ScoreAsWritten(n: nat, k: Classes): int {
    LengthScore(n) + DiversityScore(k) + UniqueBonus(k.unique, n) + LengthBonusAsWritten(n)
  }

  /** The score as intended. */
  function Score(n: nat, k: Classes): (r: int)
    ensures 0 <= r <= 80
  {
    LengthScore(n) + DiversityScore(k) + UniqueBonus(k.unique, n) + LengthBonus(n)
  }

  /** The number of distinct characters of `p`. */
  function Unique(p: seq<char>): nat {
    |set c | c in p|
  }

  /** A password has no more distinct characters than characters. */
  lemma {:induction false} UniqueAtMost(p: seq<char>)
    ensures Unique(p) <= |p|
    ensures p != [] ==> Unique(p) >= 1
  {
    if p != [] {
      var q := p[..|p| - 1];
      UniqueAtMost(q);
      assert p == q + [p[|p| - 1]];
      assert (set c | c in p) == (set c | c in q) + {p[|p| - 1]};
      assert p[|p| - 1] in (set c | c in p);
    }
  }

  /** What the character loop of analyze_password_strength finds in `p`. */
  function ClassesOf(p: seq<char>): (k: Classes)
    ensures k.lower <==> exists c :: c in p && IsLower(c)
    ensures k.special <==> exists c :: c in p && c in SPECIAL_CHARS
    ensures k.unique <= |p|
  {
    UniqueAtMost(p);
    Classes(exists c :: c in p && IsLower(c), exists c :: c in p && IsUpper(c),
            exists c :: c in p && IsDigit(c), exists c :: c in p && c in SPECIAL_CHARS, Unique(p))
  }

  /** PasswordAnalysis without the entropy and the two description strings. */
  datatype PasswordAnalysis = PasswordAnalysis(
    strength: Strength, score: int, hasLowercase: bool, hasUppercase: bool, hasDigits: bool,
    hasSpecial: bool, uniqueChars: nat)

  /** The analysis of the empty password: all fields zero, so Very Weak. */
  const EmptyAnalysis := PasswordAnalysis(VeryWeak, 0, false, false, false, false, 0)

  /** The analysis of a password, with the length bonus as intended. */
  function Analyze(p: seq<char>): (a: PasswordAnalysis)
    ensures p == [] ==> a == EmptyAnalysis
    ensures p != [] ==> 1 <= a.uniqueChars <= |p| && a.strength == StrengthOf(a.score)
    ensures 0 <= a.score <= 80
  {
    if p == [] then EmptyAnalysis
    else
      var k := ClassesOf(p);
      UniqueAtMost(p);
      var score := Score(|p|, k);
      PasswordAnalysis(StrengthOf(score), score, k.lower, k.upper, k.digits, k.special, k.unique)
  }

  /** As written, no password scores above 70, so none is rated Very Strong. */
  lemma AsWrittenNeverVeryStrong(p: seq<char>)
    ensures ScoreAsWritten(|p|, ClassesOf(p)) <= 70
    ensures StrengthOf(ScoreAsWritten(|p|, ClassesOf(p))) != VeryStrong
  {
  }

  /**
   * With the bonus as intended, a password of 16 or more characters that uses every class
   * and has at least 80% distinct characters is rated Very Strong.
   */
  lemma VeryStrongReachable(p: seq<char>)
    requires |p| >= 16
    requires exists c :: c in p && IsLower(c)
    requires exists c :: c in p && IsUpper(c)
    requires exists c :: c in p && IsDigit(c)
    requires exists c :: c in p && c in SPECIAL_CHARS
    requires 5 * Unique(p) >= 4 * |p|
    ensures Analyze(p).strength == VeryStrong
  {
    var k := ClassesOf(p);
    assert DiversityScore(k) == 25;
  }

  /** Anything shorter than 16 characters scores below 80 either way. */
  lemma VeryStrongNeedsSixteen(p: seq<char>)
    ensures Analyze(p).strength == VeryStrong ==> |p| >= 16
  {
  }

  /** Splitting the distinct characters below `b + 1` at `b`. */
  lemma Below(p: seq<char>, b: nat)
    requires b < 256
    ensures |set x | x in p && (x as int) < b + 1|
         == |set x | x in p && (x as int) < b| + (if (b as char) in p then 1 else 0)
  {
    var lo := set x | x in p && (x as int) < b;
    if (b as char) in p {
      assert (set x | x in p && (x as int) < b + 1) == lo + {b as char};
    } else {
      assert (set x | x in p && (x as int) < b + 1) == lo;
    }
  }

  /** The four class tests over the characters of `q`. */
  function Seen(q: seq<char>): (bool, bool, bool, bool) {
    (exists c :: c in q && IsLower(c), exists c :: c in q && IsUpper(c),
     exists c :: c in q && IsDigit(c), exists c :: c in q && c in SPECIAL_CHARS)
  }

  /** One more character adds its own classes to those already seen. */
  lemma SeenStep(q: seq<char>, c: char)
    ensures var s, t := Seen(q), Seen(q + [c]);
      && t.0 == (s.0 || IsLower(c)) && t.1 == (s.1 || IsUpper(c))
      && t.2 == (s.2 || IsDigit(c)) && t.3 == (s.3 || c in SPECIAL_CHARS)
  {
    assert c in q + [c];
    assert forall x :: x in q + [c] <==> x in q || x == c;
  }

  /** The character-class loop: one flag per class, set when a character of it is seen. */
  method FindClasses(password: seq<char>) returns (lower: bool, upper: bool, digits: bool, special: bool)
    ensures lower == ClassesOf(password).lower && upper == ClassesOf(password).upper
    ensures digits == ClassesOf(password).digits && special == ClassesOf(password).special
  {
    lower, upper, digits, special := false, false, false, false;
    for i := 0 to |password|
      invariant (lower, upper, digits, special) == Seen(password[..i])
    {
      SeenStep(password[..i], password[i]);
      assert password[..i + 1] == password[..i] + [password[i]];
      if IsLower(password[i]) { lower := true; }
      if IsUpper(password[i]) { upper := true; }
      if IsDigit(password[i]) { digits := true; }
      if password[i] in SPECIAL_CHARS { special := true; }
    }
    assert password[..|password|] == password;
  }

  /** The `used[256]` table and its count: the number of distinct characters. */
  method CountUnique(password: seq<char>) returns (unique: nat)
    requires forall c :: c in password ==> (c as int) < 256
    ensures unique == Unique(password)
  {
    var used := new bool[256](_ => false);
    for i := 0 to |password|
      invariant forall v :: 0 <= v < 256 ==> (used[v] <==> (v as char) in password[..i])
    {
      assert password[..i + 1] == password[..i] + [password[i]];
      assert password[i] in password;
      used[password[i] as int] := true;
    }
    assert password[..|password|] == password;
    unique := 0;
    for b := 0 to 256
      invariant forall v :: 0 <= v < 256 ==> (used[v] <==> (v as char) in password)
      invariant unique == |set x | x in password && (x as int) < b|
    {
      Below(password, b);
      if used[b] {
        unique := unique + 1;
      }
    }
    assert (set x | x in password && (x as int) < 256) == set x | x in password;
  }

  /**
   * analyze_password_strength on the characters of a C string (bytes): the empty password
   * is Very Weak with every field zero; otherwise the classes, distinct characters, score
   * and level, with the length bonus as intended.
   */
  method AnalyzePasswordStrength(password: seq<char>) returns (a: PasswordAnalysis)
    requires NoNul(password)
    requires forall c :: c in password ==> (c as int) < 256
    ensures a == Analyze(password)
  {
    var length := |password|;
    if length == 0 {
      return EmptyAnalysis;
    }
    var lower, upper, digits, special := FindClasses(password);
    var unique := CountUnique(password);
    var score := Tally(length, Classes(lower, upper, digits, special, unique));
    a := PasswordAnalysis(StrengthOf(score), score, lower, upper, digits, special, unique);
  }

  /** The score of analyze_password_strength, added up term by term, with the length bonus as intended. */
  method Tally(length: nat, k: Classes) returns (score: int)
    ensures score == Score(length, k)
  {
    score := 0;
    if length >= 8 { score := score + 25; }
    else if length >= 6 { score := score + 10; }
    else if length >= 4 { score := score + 5; }
    if k.lower { score := score + 5; }
    if k.upper { score := score + 5; }
    if k.digits { score := score + 5; }
    if k.special { score := score + 10; }
    if 5 * k.unique >= 4 * length { score := score + 10; }
    else if 5 * k.unique >= 3 * length { score := score + 5; }
    if length >= 16 { score := score + 20; }
    else if length >= 12 { score := score + 10; }
  }
}
