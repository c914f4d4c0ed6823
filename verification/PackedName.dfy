/** Short alphanumeric names packed into one 64-bit word: six bits a letter, the length on top. */
module PackedName {
  import opened Wrappers

  const LOWER: string := "abcdefghijklmnopqrstuvwxyz"
  const UPPER: string := "ABCDEFGHIJKLMNOPQRSTUVWXYZ"
  const NUMERALS: string := "0123456789"
  const CHARSET: string := LOWER + UPPER + NUMERALS
  const MAX_PACKED_LEN: nat := 10

  /** The position of a letter in the charset, in closed form. */
  function CodeOf(c: char): (r: Option<nat>)
    ensures r.Some? ==> r.value < 62
  {
    if 'a' <= c <= 'z' then Some(c as int - 'a' as int)
    else if 'A' <= c <= 'Z' then Some(c as int - 'A' as int + 26)
    else if '0' <= c <= '9' then Some(c as int - '0' as int + 52)
    else None
  }

  lemma LowerCodes(i: nat)
    requires i < 26
    ensures |LOWER| == 26 && LOWER[i] as int == 'a' as int + i
  {
  }

  lemma UpperCodes(i: nat)
    requires i < 26
    ensures |UPPER| == 26 && UPPER[i] as int == 'A' as int + i
  {
  }

  lemma NumeralCodes(i: nat)
    requires i < 10
    ensures |NUMERALS| == 10 && NUMERALS[i] as int == '0' as int + i
  {
  }

  /** The charset lists each letter once, at the position given by `CodeOf`. */
  lemma CharsetIsCodeOf(i: nat)
    requires i < 62
    ensures |CHARSET| == 62 && CodeOf(CHARSET[i]) == Some(i)
  {
    hide LOWER, UPPER, NUMERALS;
    LowerCodes(if i < 26 then i else 0);
    UpperCodes(if 26 <= i < 52 then i - 26 else 0);
    NumeralCodes(if 52 <= i then i - 52 else 0);
  }

  lemma CodeOfIsCharset(c: char)
    ensures |CHARSET| == 62
    ensures CodeOf(c).Some? ==> CHARSET[CodeOf(c).value] == c
  {
    hide CHARSET;
    CharsetIsCodeOf(0);
    if CodeOf(c).Some? {
      CharsetIsCodeOf(CodeOf(c).value);
    }
  }

  /** Linear search in the charset. */
  method Find(c: char) returns (idx: Option<nat>)
    ensures idx == CodeOf(c)
  {
    hide CHARSET, CodeOf;
    CharsetIsCodeOf(0);
    var i := 0;
    while i < |CHARSET|
      invariant i <= |CHARSET| && (CodeOf(c).Some? ==> i <= CodeOf(c).value)
    {
      CharsetIsCodeOf(i);
      CodeOfIsCharset(c);
      if CHARSET[i] == c {
        return Some(i);
      }
      i := i + 1;
    }
    return None;
  }

  /** `d << (6 * i)`, each shift by a constant. */
  function Spread(d: bv6, i: nat): bv64
    requires i < 10
  {
    var x := d as bv64;
    match i
    case 0 => x case 1 => x << 6 case 2 => x << 12 case 3 => x << 18 case 4 => x << 24
    case 5 => x << 30 case 6 => x << 36 case 7 => x << 42 case 8 => x << 48 case _ => x << 54
  }

  /** `(code >> (6 * i)) & 0x3F`. */
  function Digit(code: bv64, i: nat): bv6
    requires i < 10
  {
    var low := match i
      case 0 => code case 1 => code >> 6 case 2 => code >> 12 case 3 => code >> 18 case 4 => code >> 24
      case 5 => code >> 30 case 6 => code >> 36 case 7 => code >> 42 case 8 => code >> 48 case _ => code >> 54;
    (low & 0x3F) as bv6
  }

  lemma DigitOfOr(a: bv64, b: bv64, i: nat)
    requires i < 10
    ensures Digit(a | b, i) == Digit(a, i) | Digit(b, i)
  {
    match i
    case 0 => case 1 => case 2 => case 3 => case 4 => case 5 => case 6 => case 7 => case 8 => case _ =>
  }

  lemma DigitOfSpread(d: bv6, i: nat, j: nat)
    requires i < 10 && j < 10
    ensures Digit(Spread(d, i), j) == if i == j then d else 0
    ensures Spread(d, i) >> 60 == 0
  {
  }

  /** `(code >> 60) & 0xF`, the length field. */
  function Top(code: bv64): bv4 {
    (code >> 60) as bv4
  }

  lemma TopOfOr(a: bv64, d: bv6, i: nat)
    requires i < 10
    ensures Top(a | Spread(d, i)) == Top(a)
  {
    match i
    case 0 => case 1 => case 2 => case 3 => case 4 => case 5 => case 6 => case 7 => case 8 => case _ =>
  }

  lemma OrZero(a: bv6, b: bv6)
    ensures b == 0 ==> a | b == a
    ensures a == 0 ==> a | b == b
  {
  }

  function WithDigit(code: bv64, i: nat, d: bv6): bv64
    requires i < 10
  {
    code | Spread(d, i)
  }

  lemma SetDigit'(code: bv64, i: nat, d: bv6, j: nat, x: bv64)
    requires i < 10 && j < 10 && Digit(code, i) == 0 && x == Spread(d, i)
    ensures Digit(code | x, j) == if i == j then d else Digit(code, j)
  {
    hide Digit, Spread;
    DigitOfOr(code, x, j);
    DigitOfSpread(d, i, j);
    OrZero(Digit(code, j), Digit(x, j));
  }

  /** Or-ing a digit into a free place changes that place and nothing else. */
  lemma SetDigit(code: bv64, i: nat, d: bv6, j: nat)
    requires i < 10 && j < 10 && Digit(code, i) == 0
    ensures Digit(WithDigit(code, i, d), j) == if i == j then d else Digit(code, j)
    ensures Top(WithDigit(code, i, d)) == Top(code)
  {
    hide Digit, Spread, Top;
    SetDigit'(code, i, d, j, Spread(d, i));
    TopOfOr(code, d, i);
  }

  /** Ten digits and the length field are the whole word. */
  lemma Extensional(a: bv64, b: bv64)
    requires forall i :: 0 <= i < 10 ==> Digit(a, i) == Digit(b, i)
    requires Top(a) == Top(b)
    ensures a == b
  {
    assert Digit(a, 0) == Digit(b, 0) && Digit(a, 1) == Digit(b, 1) && Digit(a, 2) == Digit(b, 2)
        && Digit(a, 3) == Digit(b, 3) && Digit(a, 4) == Digit(b, 4) && Digit(a, 5) == Digit(b, 5)
        && Digit(a, 6) == Digit(b, 6) && Digit(a, 7) == Digit(b, 7) && Digit(a, 8) == Digit(b, 8)
        && Digit(a, 9) == Digit(b, 9);
  }

  /** The bits that a word of a given length leaves unused. */
  function CheckMask(len: nat): bv64
    requires len <= MAX_PACKED_LEN
  {
    var all := 0xFFFF_FFFF_FFFF_FFFF;
    var unused := match len
      case 0 => all case 1 => all << 6 case 2 => all << 12 case 3 => all << 18 case 4 => all << 24
      case 5 => all << 30 case 6 => all << 36 case 7 => all << 42 case 8 => all << 48 case 9 => all << 54
      case _ => all << 60;
    unused & !((0xF as bv64) << 60)
  }

  predicate HasStrayBits(code: bv64, len: nat)
    requires len <= MAX_PACKED_LEN
  {
    code & CheckMask(len) != 0
  }

  /** Digit `i` is zero, unless one of `len` letters uses it. */
  predicate Blank(code: bv64, i: nat, len: nat)
    requires i < 10
  {
    len <= i ==> Digit(code, i) == 0
  }

  predicate BlankFrom(code: bv64, len: nat) {
    && Blank(code, 0, len) && Blank(code, 1, len) && Blank(code, 2, len) && Blank(code, 3, len) && Blank(code, 4, len)
    && Blank(code, 5, len) && Blank(code, 6, len) && Blank(code, 7, len) && Blank(code, 8, len) && Blank(code, 9, len)
  }

  lemma StrayDigitsOfFew(code: bv64, len: nat)
    requires len <= 3
    ensures !HasStrayBits(code, len) <==> BlankFrom(code, len)
  {
  }

  lemma StrayDigitsOfSome(code: bv64, len: nat)
    requires 3 < len <= 6
    ensures !HasStrayBits(code, len) <==> BlankFrom(code, len)
  {
  }

  lemma StrayDigitsOfMany(code: bv64, len: nat)
    requires 6 < len <= 10
    ensures !HasStrayBits(code, len) <==> BlankFrom(code, len)
  {
  }

  /** No stray bits: every digit behind the letters is zero. */
  lemma NoStrayBits(code: bv64, len: nat)
    requires len <= 10
    ensures !HasStrayBits(code, len) <==> forall i :: len <= i < 10 ==> Digit(code, i) == 0
  {
    hide Digit, HasStrayBits;
    if len <= 3 {
      StrayDigitsOfFew(code, len);
    } else if len <= 6 {
      StrayDigitsOfSome(code, len);
    } else {
      StrayDigitsOfMany(code, len);
    }
  }

  // ---------------------------------------------------------------------------------------
  // Encoding and decoding
  // ---------------------------------------------------------------------------------------

  /** The length field of an empty word. */
  function LengthWord(n: nat): bv64
    requires n <= MAX_PACKED_LEN
  {
    (n as bv4 as bv64) << 60
  }

  lemma LengthWordParts(n: nat, i: nat)
    requires n <= 10 && i < 10
    ensures Top(LengthWord(n)) as nat == n
    ensures Digit(LengthWord(n), i) == 0
  {
    match i
    case 0 => case 1 => case 2 => case 3 => case 4 => case 5 => case 6 => case 7 => case 8 => case _ =>
  }

  predicate Spelled(s: string) {
    forall i :: 0 <= i < |s| ==> CodeOf(s[i]).Some?
  }

  function DigitOf(c: char): bv6
    requires CodeOf(c).Some?
  {
    CodeOf(c).value as bv6
  }

  function LetterOf(d: bv6): char
    requires d < 62
  {
    CharsetIsCodeOf(d as nat);
    CHARSET[d as nat]
  }

  /** The word after the first `n` letters of `s`. */
  function Packed(s: string, n: nat): bv64
    requires n <= |s| <= MAX_PACKED_LEN && Spelled(s[..n])
  {
    if n == 0 then LengthWord(|s|)
    else
      assert s[..n][n - 1] == s[n - 1] && s[..n - 1] == s[..n][..n - 1];
      WithDigit(Packed(s, n - 1), n - 1, DigitOf(s[n - 1]))
  }

  lemma PackedNone(s: string)
    requires |s| <= MAX_PACKED_LEN
    ensures Spelled(s[..0]) && Packed(s, 0) == LengthWord(|s|)
  {
  }

  lemma PackedNext(s: string, n: nat)
    requires n < |s| <= MAX_PACKED_LEN && Spelled(s[..n])
    ensures Spelled(s[..n + 1]) <==> CodeOf(s[n]).Some?
    ensures CodeOf(s[n]).Some? ==> Packed(s, n + 1) == WithDigit(Packed(s, n), n, CodeOf(s[n]).value as bv6)
    ensures CodeOf(s[n]).None? ==> !Spelled(s)
  {
    hide CodeOf, WithDigit, LengthWord;
    assert s[..n + 1] == s[..n] + [s[n]];
  }

  function Encode(s: string): Option<bv64> {
    if |s| > MAX_PACKED_LEN || !Spelled(s) then None else assert s[..|s|] == s; Some(Packed(s, |s|))
  }

  predicate Readable(code: bv64, n: nat)
    requires n <= MAX_PACKED_LEN
  {
    forall i :: 0 <= i < n ==> Digit(code, i) < 62
  }

  function Unpacked(code: bv64, n: nat): (s: string)
    requires n <= MAX_PACKED_LEN && Readable(code, n)
    ensures |s| == n
    ensures forall i :: 0 <= i < n ==> s[i] == LetterOf(Digit(code, i))
  {
    hide Digit, LetterOf;
    seq(n, i requires 0 <= i < n => LetterOf(Digit(code, i)))
  }

  function Decode(code: bv64): Option<string> {
    var len := Top(code) as nat;
    if len > MAX_PACKED_LEN || !Readable(code, len) || HasStrayBits(code, len) then None
    else Some(Unpacked(code, len))
  }

  method EncodeString(str: string) returns (r: Option<bv64>)
    ensures r == Encode(str)
  {
    if |str| > MAX_PACKED_LEN {
      return None;
    }
    hide LengthWord, CodeOf, WithDigit, Packed, Spelled;
    PackedNone(str);
    var code := LengthWord(|str|);
    var pos := 0;
    while pos < |str|
      invariant pos <= |str| && Spelled(str[..pos]) && code == Packed(str, pos)
    {
      PackedNext(str, pos);
      var idx := Find(str[pos]);
      if idx.None? {
        return None;
      }
      code := WithDigit(code, pos, idx.value as bv6);
      pos := pos + 1;
    }
    assert str[..|str|] == str;
    return Some(code);
  }

  method DecodeString(code: bv64) returns (r: Option<string>)
    ensures r == Decode(code)
  {
    hide Digit, Top, HasStrayBits, LetterOf;
    var len := Top(code) as nat;
    if len > MAX_PACKED_LEN {
      return None;
    }
    var result := [];
    var i := 0;
    while i < len
      invariant i <= len && Readable(code, i) && result == Unpacked(code, i)
    {
      var idx := Digit(code, i);
      if idx >= 62 {
        return None;
      }
      result := result + [LetterOf(idx)];
      i := i + 1;
    }
    if HasStrayBits(code, len) {
      return None;
    }
    return Some(result);
  }

  lemma {:induction false} PackedParts(s: string, n: nat, j: nat)
    requires n <= |s| <= 10 && Spelled(s[..n]) && j < 10
    ensures Digit(Packed(s, n), j) == if j < n then DigitOf(s[..n][j]) else 0
    ensures Top(Packed(s, n)) as nat == |s|
  {
    hide Digit, Top, LengthWord, WithDigit, DigitOf;
    if n == 0 {
      LengthWordParts(|s|, j);
    } else {
      assert s[..n - 1] == s[..n][..n - 1];
      PackedParts(s, n - 1, n - 1);
      PackedParts(s, n - 1, j);
      SetDigit(Packed(s, n - 1), n - 1, DigitOf(s[n - 1]), j);
    }
  }

  lemma DigitOfLetter(d: bv6)
    requires d < 62
    ensures CodeOf(LetterOf(d)) == Some(d as nat) && DigitOf(LetterOf(d)) == d
  {
    hide CHARSET, CodeOf;
    CharsetIsCodeOf(d as nat);
  }

  lemma LetterOfDigit(c: char)
    requires CodeOf(c).Some?
    ensures DigitOf(c) < 62 && LetterOf(DigitOf(c)) == c
  {
    hide CHARSET, CodeOf;
    CodeOfIsCharset(c);
    SixBits(CodeOf(c).value);
  }

  lemma SixBits(n: nat)
    requires n < 62
    ensures (n as bv6) as nat == n
  {
  }

  lemma EncodedDecodes(s: string)
    requires Encode(s).Some?
    ensures Decode(Encode(s).value) == Some(s)
  {
    hide Digit, Top, HasStrayBits, LetterOf, Packed, DigitOf, CodeOf;
    assert s[..|s|] == s;
    var code := Packed(s, |s|);
    forall j | 0 <= j < 10
      ensures Digit(code, j) == if j < |s| then DigitOf(s[j]) else 0
    {
      PackedParts(s, |s|, j);
    }
    PackedParts(s, |s|, 0);
    forall j | 0 <= j < |s|
      ensures DigitOf(s[j]) < 62 && LetterOf(DigitOf(s[j])) == s[j]
    {
      LetterOfDigit(s[j]);
    }
    NoStrayBits(code, |s|);
    assert Readable(code, |s|);
    assert Unpacked(code, |s|) == s;
  }

  lemma DecodedEncodes(code: bv64)
    requires Decode(code).Some?
    ensures Encode(Decode(code).value) == Some(code)
  {
    hide Digit, Top, HasStrayBits, LetterOf, Packed, DigitOf, CodeOf;
    var len := Top(code) as nat;
    var s := Decode(code).value;
    forall j | 0 <= j < len
      ensures CodeOf(s[j]).Some? && DigitOf(s[j]) == Digit(code, j)
    {
      DigitOfLetter(Digit(code, j));
    }
    assert s[..|s|] == s;
    NoStrayBits(code, len);
    forall j | 0 <= j < 10
      ensures Digit(Packed(s, len), j) == Digit(code, j)
    {
      PackedParts(s, len, j);
    }
    PackedParts(s, len, 0);
    Extensional(Packed(s, len), code);
  }

  /** Valid names and accepted codes are in bijection, each conversion inverting the other. */
  lemma NamesAndCodes(s: string, code: bv64)
    ensures Encode(s) == Some(code) <==> Decode(code) == Some(s)
  {
    hide Encode, Decode;
    if Encode(s) == Some(code) {
      EncodedDecodes(s);
    }
    if Decode(code) == Some(s) {
      DecodedEncodes(code);
    }
  }

  lemma LetterInCharset(c: char)
    ensures CodeOf(c).Some? <==> c in CHARSET
  {
    hide CHARSET, CodeOf;
    CharsetIsCodeOf(0);
    CodeOfIsCharset(c);
    if c in CHARSET {
      var i :| 0 <= i < |CHARSET| && CHARSET[i] == c;
      CharsetIsCodeOf(i);
    }
  }

  /** Exactly the alphanumeric names of at most ten letters have a code. */
  lemma EncodeDomain(s: string)
    ensures Encode(s).Some? <==> |s| <= 10 && forall i :: 0 <= i < |s| ==> s[i] in CHARSET
  {
    hide CHARSET, CodeOf, Packed;
    forall i | 0 <= i < |s|
      ensures CodeOf(s[i]).Some? <==> s[i] in CHARSET
    {
      LetterInCharset(s[i]);
    }
  }

  /** The lowest six bits. */
  function Six(x: bv64): bv6 { (x & 0x3F) as bv6 }

  lemma DigitBits(code: bv64)
    ensures Six(code) == Digit(code, 0) && Six(code >> 6) == Digit(code, 1) && Six(code >> 12) == Digit(code, 2)
    ensures Six(code >> 18) == Digit(code, 3) && Six(code >> 24) == Digit(code, 4) && Six(code >> 30) == Digit(code, 5)
    ensures Six(code >> 36) == Digit(code, 6) && Six(code >> 42) == Digit(code, 7) && Six(code >> 48) == Digit(code, 8)
    ensures Six(code >> 54) == Digit(code, 9)
  {
  }

  /** The bits of a code: letter `i` in the six from bit `6 * i` on, and the length in the top four. */
  lemma BitsOfCode(s: string, code: bv64)
    requires Encode(s) == Some(code)
    ensures Spelled(s) && code >> 60 == |s| as bv64
    ensures |s| > 0 ==> Six(code) == DigitOf(s[0])
    ensures |s| > 1 ==> Six(code >> 6) == DigitOf(s[1])
    ensures |s| > 2 ==> Six(code >> 12) == DigitOf(s[2])
    ensures |s| > 3 ==> Six(code >> 18) == DigitOf(s[3])
    ensures |s| > 4 ==> Six(code >> 24) == DigitOf(s[4])
    ensures |s| > 5 ==> Six(code >> 30) == DigitOf(s[5])
    ensures |s| > 6 ==> Six(code >> 36) == DigitOf(s[6])
    ensures |s| > 7 ==> Six(code >> 42) == DigitOf(s[7])
    ensures |s| > 8 ==> Six(code >> 48) == DigitOf(s[8])
    ensures |s| > 9 ==> Six(code >> 54) == DigitOf(s[9])
  {
    hide Digit, Top, CodeOf, Packed, DigitOf, Six;
    assert s[..|s|] == s;
    PackedParts(s, |s|, 0);
    TopBits(code);
    DigitBits(code);
    forall i | 0 <= i < |s|
      ensures Digit(code, i) == DigitOf(s[i])
    {
      PackedParts(s, |s|, i);
    }
  }

  lemma TopBits(code: bv64)
    ensures code >> 60 == Top(code) as nat as bv64
  {
  }

  /** The charset in its order: lower case, upper case, numerals. */
  lemma LetterTable(c: char)
    ensures 'a' <= c <= 'z' ==> CodeOf(c) == Some((c as int - 'a' as int) as nat)
    ensures 'A' <= c <= 'Z' ==> CodeOf(c) == Some((26 + c as int - 'A' as int) as nat)
    ensures '0' <= c <= '9' ==> CodeOf(c) == Some((52 + c as int - '0' as int) as nat)
    ensures LOWER == "abcdefghijklmnopqrstuvwxyz" && UPPER == "ABCDEFGHIJKLMNOPQRSTUVWXYZ" && NUMERALS == "0123456789"
  {
  }
}
