/**
 * The random password generator page: the alphabet the options select, the
 * bounded random index, the generation loop, and the strength and breach
 * state it refreshes with each new password.
 */
module Generator {
  import opened Common
  import opened Hex
  import opened Strength
  import opened Breach

  /** The 52 letters, written as the upper-case then the lower-case alphabet. */
  const UPPERS := "ABCDEFGHIJKLMNOPQRSTUVWXYZ"
  const LOWERS := "abcdefghijklmnopqrstuvwxyz"
  const LETTERS := UPPERS + LOWERS
  const DIGITS := "0123456789"
  const SYMBOLS := "~!@#$%^&*(){}:<>.,?|"

  /** The letters are exactly the ASCII letters. */
  lemma LettersSpec()
    ensures |LETTERS| == 52
    ensures forall c :: c in LETTERS <==> IsLower(c) || IsUpper(c)
  {
    UppersSpec();
    LowersSpec();
  }

  lemma UppersSpec()
    ensures forall c :: c in UPPERS <==> IsUpper(c)
  {
    assert forall k :: 0 <= k < |UPPERS| ==> UPPERS[k] as int == 'A' as int + k;
    forall c | IsUpper(c) ensures c in UPPERS {
      assert UPPERS[c as int - 'A' as int] == c;
    }
  }

  lemma LowersSpec()
    ensures forall c :: c in LOWERS <==> IsLower(c)
  {
    assert forall k :: 0 <= k < |LOWERS| ==> LOWERS[k] as int == 'a' as int + k;
    forall c | IsLower(c) ensures c in LOWERS {
      assert LOWERS[c as int - 'a' as int] == c;
    }
  }

  /** The digit string is exactly the ASCII digits. */
  lemma DigitsSpec()
    ensures |DIGITS| == 10
    ensures forall c :: c in DIGITS <==> IsDigit(c)
  {
    forall c | IsDigit(c) ensures c in DIGITS {
      assert DIGITS[c as int - '0' as int] == c;
    }
  }

  /** The generator's 20 symbols are all outside the letters and digits. */
  lemma SymbolsSpec()
    ensures |SYMBOLS| == 20
    ensures forall c :: c in SYMBOLS ==> IsSymbol(c)
  {
  }

  /**
   * The alphabet `PasswordGenerater` builds: the letters, then the digits
   * when numbers are on, then the symbols when symbols are on.
   */
  function Alphabet(numAllowed: bool, charAllowed: bool): (str: string)
    ensures |str| == |LETTERS| + (if numAllowed then |DIGITS| else 0) + (if charAllowed then |SYMBOLS| else 0)
    ensures forall c :: c in str <==> IsLower(c) || IsUpper(c) || (numAllowed && IsDigit(c)) || (charAllowed && c in SYMBOLS)
  {
    LettersSpec();
    DigitsSpec();
    var str := LETTERS;
    var str := if numAllowed then str + DIGITS else str;
    if charAllowed then str + SYMBOLS else str
  }

  /** The four possible alphabets have 52, 62, 72 or 82 characters. */
  lemma AlphabetSizes(numAllowed: bool, charAllowed: bool)
    ensures |Alphabet(numAllowed, charAllowed)| in {52, 62, 72, 82}
    ensures |Alphabet(false, false)| == 52 && |Alphabet(true, false)| == 62
    ensures |Alphabet(false, true)| == 72 && |Alphabet(true, true)| == 82
  {
    LettersSpec();
    DigitsSpec();
    SymbolsSpec();
  }

  /** One value of `window.crypto.getRandomValues` on a `Uint32Array`. */
  type Word = w: nat | w < 0x1_0000_0000

  /**
   * `getSecureRandom(max)`: zero when `max` is not positive, otherwise the
   * random word reduced modulo `max`: a valid index below `max`, and the
   * word itself when the word is already below `max`.
   */
  function SecureRandom(max: int, word: Word): (r: nat)
    ensures max <= 0 ==> r == 0
    ensures max > 0 ==> r < max && r <= word
    ensures max > 0 ==> word == (word / max) * max + r
    ensures max > word ==> r == word
  {
    if max <= 0 then 0 else word % max
  }

  /**
   * The password the loop builds for `length` draws: one alphabet character
   * per draw, none when `length` is not positive.
   */
  function Generated(length: int, numAllowed: bool, charAllowed: bool, draw: nat -> Word): (pass: string)
    ensures |pass| == if length > 0 then length else 0
    ensures forall i :: 0 <= i < |pass| ==> pass[i] in Alphabet(numAllowed, charAllowed)
  {
    var str := Alphabet(numAllowed, charAllowed);
    var n := if length > 0 then length else 0;
    var pass := seq(n, i requires 0 <= i < n => str[SecureRandom(|str|, draw(i))]);
    assert forall i :: 0 <= i < n ==> pass[i] == str[SecureRandom(|str|, draw(i))] && pass[i] in str;
    pass
  }

  /**
   * Every generated character is a letter, a digit only when numbers are on,
   * and one of the 20 symbols only when symbols are on; so the estimator's
   * pool for a generated password is at most the letters, plus 10 with
   * numbers, plus 32 with symbols, although the symbols offer only 20
   * characters.
   */
  lemma GeneratedPool(length: int, numAllowed: bool, charAllowed: bool, draw: nat -> Word)
    ensures var pass := Generated(length, numAllowed, charAllowed, draw);
      && (!numAllowed ==> !HasDigit(pass))
      && (!charAllowed ==> !HasSymbol(pass))
      && PoolSize(pass) <= LOWER_POOL + UPPER_POOL + (if numAllowed then DIGIT_POOL else 0) + (if charAllowed then SYMBOL_POOL else 0)
  {
    var pass := Generated(length, numAllowed, charAllowed, draw);
    SymbolsSpec();
    forall i | 0 <= i < |pass| ensures (!numAllowed ==> !IsDigit(pass[i])) && (!charAllowed ==> !IsSymbol(pass[i])) {
      assert pass[i] in Alphabet(numAllowed, charAllowed);
    }
  }

  /** With every option on, the estimator can credit a pool of 94 to a password drawn from 82 characters. */
  lemma EstimatorOvercreditsSymbols()
    ensures |Alphabet(true, true)| == 82
    ensures forall i :: 0 <= i < 4 ==> "aA0~"[i] in Alphabet(true, true)
    ensures PoolSize("aA0~") == 94
  {
    AlphabetSizes(true, true);
    assert IsLower("aA0~"[0]) && IsUpper("aA0~"[1]) && IsDigit("aA0~"[2]) && IsSymbol("aA0~"[3]);
    assert "aA0~"[3] == SYMBOLS[0];
  }

  /**
   * The loop of `PasswordGenerater`: the alphabet is assembled from the
   * options, then each of the `length` draws picks one of its characters.
   */
  method BuildPassword(length: int, numAllowed: bool, charAllowed: bool, draw: nat -> Word) returns (pass: string)
    ensures pass == Generated(length, numAllowed, charAllowed, draw)
  {
    pass := "";
    var str := LETTERS;
    if numAllowed {
      str := str + DIGITS;
    }
    if charAllowed {
      str := str + SYMBOLS;
    }
    assert str == Alphabet(numAllowed, charAllowed);
    var i := 0;
    while i < length
      invariant 0 <= i && (i <= length || i == 0)
      invariant |pass| == i
      invariant forall k :: 0 <= k < i ==> pass[k] == str[SecureRandom(|str|, draw(k))]
    {
      var index := SecureRandom(|str|, draw(i));
      pass := pass + [str[index]];
      i := i + 1;
    }
  }

  /**
   * The generator page's state. `leak` is its breach indicator
   * (`genLeakedStatus` and `genIsChecking`).
   */
  class GeneratorPage {
    var generatedPassword: string
    var length: int
    var charAllowed: bool
    var numAllowed: bool
    var genEntropy: real
    var genStrength: string
    const leak: BreachCheck

    /** The initial state: 16 characters, numbers and symbols on, nothing generated yet. */
    constructor()
      ensures generatedPassword == "" && length == 16 && charAllowed && numAllowed
      ensures genEntropy == 0.0 && genStrength == "Weak"
      ensures fresh(leak) && leak.status == NoStatus && !leak.isChecking && leak.queries == []
    {
      generatedPassword := "";
      length := 16;
      charAllowed := true;
      numAllowed := true;
      genEntropy := 0.0;
      genStrength := "Weak";
      leak := new BreachCheck();
    }

    /**
     * `PasswordGenerater`: draw `length` characters from the alphabet, show
     * the password with its entropy and strength, then check it for breaches.
     * The i-th call of `getRandomValues` returns `draw(i)`.
     */
    method GeneratePassword(draw: nat -> Word, bits: Measure, sha1: string -> Option<seq<Byte>>, fetchRange: string -> Option<Reply>)
      modifies this, leak
      ensures length == old(length) && numAllowed == old(numAllowed) && charAllowed == old(charAllowed)
      ensures generatedPassword == Generated(length, numAllowed, charAllowed, draw)
      ensures genEntropy == Entropy(generatedPassword, bits)
      ensures genStrength == StrengthLevel(genEntropy)
      ensures leak.status == CheckStatus(generatedPassword, sha1, fetchRange)
      ensures leak.queries == old(leak.queries) + CheckQueries(generatedPassword, sha1)
      ensures leak.isChecking == (generatedPassword == "" && old(leak.isChecking))
    {
      var pass := BuildPassword(length, numAllowed, charAllowed, draw);
      generatedPassword := pass;
      var entropyValue := Entropy(pass, bits);
      genEntropy := entropyValue;
      genStrength := StrengthLevel(entropyValue);
      leak.CheckPasswordBreach(pass, sha1, fetchRange);
    }
  }
}
