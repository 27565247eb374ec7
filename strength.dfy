/**
 * The password strength estimator shared by the generator page and the
 * strength checker page: the character pool a password draws on, its
 * entropy, the four strength bands and the colour each band is drawn in.
 */
module Strength {

  predicate IsLower(c: char) { 'a' <= c <= 'z' }
  predicate IsUpper(c: char) { 'A' <= c <= 'Z' }
  predicate IsDigit(c: char) { '0' <= c <= '9' }

  /** `[^A-Za-z0-9]`: every character that is not an ASCII letter or digit. */
  predicate IsSymbol(c: char) { !IsLower(c) && !IsUpper(c) && !IsDigit(c) }

  predicate HasLower(s: string) { exists i :: 0 <= i < |s| && IsLower(s[i]) }
  predicate HasUpper(s: string) { exists i :: 0 <= i < |s| && IsUpper(s[i]) }
  predicate HasDigit(s: string) { exists i :: 0 <= i < |s| && IsDigit(s[i]) }
  predicate HasSymbol(s: string) { exists i :: 0 <= i < |s| && IsSymbol(s[i]) }

  /** The credit each character class earns. */
  const LOWER_POOL := 26
  const UPPER_POOL := 26
  const DIGIT_POOL := 10
  const SYMBOL_POOL := 32

  /**
   * The pool size `calculateEntropy` computes: the credits of the classes
   * that occur in `s`. Every character belongs to some class, so only the
   * empty string has an empty pool, and no pool exceeds 94.
   */
  function PoolSize(s: string): (n: nat)
    ensures n <= LOWER_POOL + UPPER_POOL + DIGIT_POOL + SYMBOL_POOL
    ensures n == 0 <==> s == ""
  {
    assert s != "" ==> IsLower(s[0]) || IsUpper(s[0]) || IsDigit(s[0]) || IsSymbol(s[0]);
    (if HasLower(s) then LOWER_POOL else 0)
    + (if HasUpper(s) then UPPER_POOL else 0)
    + (if HasDigit(s) then DIGIT_POOL else 0)
    + (if HasSymbol(s) then SYMBOL_POOL else 0)
  }

  /** Every class present in `s` is present in any text that contains `s`. */
  lemma PoolSizeGrows(s: string, t: string)
    ensures PoolSize(s) <= PoolSize(s + t) && PoolSize(t) <= PoolSize(s + t)
  {
    var u := s + t;
    if HasLower(s) { var i :| 0 <= i < |s| && IsLower(s[i]); assert u[i] == s[i]; }
    if HasUpper(s) { var i :| 0 <= i < |s| && IsUpper(s[i]); assert u[i] == s[i]; }
    if HasDigit(s) { var i :| 0 <= i < |s| && IsDigit(s[i]); assert u[i] == s[i]; }
    if HasSymbol(s) { var i :| 0 <= i < |s| && IsSymbol(s[i]); assert u[i] == s[i]; }
    if HasLower(t) { var i :| 0 <= i < |t| && IsLower(t[i]); assert u[|s| + i] == t[i]; }
    if HasUpper(t) { var i :| 0 <= i < |t| && IsUpper(t[i]); assert u[|s| + i] == t[i]; }
    if HasDigit(t) { var i :| 0 <= i < |t| && IsDigit(t[i]); assert u[|s| + i] == t[i]; }
    if HasSymbol(t) { var i :| 0 <= i < |t| && IsSymbol(t[i]); assert u[|s| + i] == t[i]; }
  }

  /**
   * `length * log2(poolSize)` rounded to two decimals. Floating point is not
   * modelled: `bits(length, pool)` stands for that number, and `Monotone`
   * says what the real function satisfies: it is never negative
   * and grows with both arguments.
   */
  type Measure = (nat, nat) -> real

  ghost predicate Monotone(bits: Measure)
  {
    && (forall l, p :: 0 < p ==> 0.0 <= bits(l, p))
    && (forall l1, p1, l2, p2 :: l1 <= l2 && 0 < p1 <= p2 ==> bits(l1, p1) <= bits(l2, p2))
  }

  /** `calculateEntropy(pwd)`: zero for the empty password, else the measure of its length and pool. */
  function Entropy(pwd: string, bits: Measure): (e: real)
    ensures pwd == "" ==> e == 0.0
    ensures pwd != "" ==> e == bits(|pwd|, PoolSize(pwd))
  {
    if |pwd| == 0 then 0.0
    else
      var poolSize := PoolSize(pwd);
      if poolSize == 0 then 0.0 else bits(|pwd|, poolSize)
  }

  /** The four labels `getStrengthLevel` returns, weakest first. */
  const LEVELS: seq<string> := ["Weak", "Medium", "Strong", "Military Grade"]

  /** The band boundaries in bits. */
  const MEDIUM_BITS := 40.0
  const STRONG_BITS := 60.0
  const MILITARY_BITS := 80.0

  /** `getStrengthLevel(entropy)`: the band the entropy falls in. */
  function StrengthLevel(e: real): (level: string)
    ensures level in LEVELS
    ensures level == "Weak" <==> e < MEDIUM_BITS
    ensures level == "Medium" <==> MEDIUM_BITS <= e < STRONG_BITS
    ensures level == "Strong" <==> STRONG_BITS <= e < MILITARY_BITS
    ensures level == "Military Grade" <==> MILITARY_BITS <= e
  {
    if e < MEDIUM_BITS then "Weak"
    else if e < STRONG_BITS then "Medium"
    else if e < MILITARY_BITS then "Strong"
    else "Military Grade"
  }

  /** The position of a level in `LEVELS`. */
  function Rank(level: string): (r: nat)
    requires level in LEVELS
    ensures r < |LEVELS| && LEVELS[r] == level
  {
    if level == "Weak" then 0 else if level == "Medium" then 1 else if level == "Strong" then 2 else 3
  }

  /** More entropy never gives a weaker level. */
  lemma StrengthMonotone(e1: real, e2: real)
    requires e1 <= e2
    ensures Rank(StrengthLevel(e1)) <= Rank(StrengthLevel(e2))
  {
  }

  /**
   * With a measure that grows with length and pool, typing more characters
   * never weakens the level the estimator shows.
   */
  lemma ExtendingNeverWeakens(s: string, t: string, bits: Measure)
    requires Monotone(bits)
    ensures Rank(StrengthLevel(Entropy(s, bits))) <= Rank(StrengthLevel(Entropy(s + t, bits)))
  {
    PoolSizeGrows(s, t);
    StrengthMonotone(Entropy(s, bits), Entropy(s + t, bits));
  }

  const UNKNOWN_COLOR := "bg-gray-500"

  /** `getStrengthColor(level)`: a colour per band, grey for any other level. */
  function StrengthColor(level: string): (color: string)
    ensures color == UNKNOWN_COLOR <==> level !in LEVELS
  {
    match level
    case "Weak" => "bg-red-500"
    case "Medium" => "bg-yellow-500"
    case "Strong" => "bg-blue-500"
    case "Military Grade" => "bg-green-500"
    case _ => UNKNOWN_COLOR
  }

  /** Different bands are drawn in different colours, and the classifier's output is never grey. */
  lemma ColorsTellBandsApart(a: string, b: string, e: real)
    requires a in LEVELS && b in LEVELS && a != b
    ensures StrengthColor(a) != StrengthColor(b)
    ensures StrengthColor(StrengthLevel(e)) != UNKNOWN_COLOR
  {
  }
}
