/** Spreadsheet column names (`column_num2str`): column 1 is "A", 26 is "Z", 27 is "AA".
    The name of a column is its number written in bijective base 26 with the digits
    'A' (1) to 'Z' (26), most significant letter first. */
module ColumnNames {

  predicate IsLetter(c: char) {
    'A' <= c <= 'Z'
  }

  predicate AllLetters(s: string) {
    forall i | 0 <= i < |s| :: IsLetter(s[i])
  }

  /** `chr(65 + r)`: the letter for a remainder `0 <= r < 26`. */
  function Letter(r: nat): (c: char)
    requires r < 26
    ensures IsLetter(c) && LetterValue(c) == r + 1
  {
    (65 + r) as char
  }

  /** The digit value of a letter in bijective base 26: 'A' is 1, 'Z' is 26. */
  function LetterValue(c: char): (v: nat)
    requires IsLetter(c)
    ensures 1 <= v <= 26
  {
    c as int - 64
  }

  /** The column number a name stands for: the decoder the converter is the inverse of. */
  function Decode(s: string): (n: nat)
    requires AllLetters(s)
    ensures s != [] ==> n >= 1
  {
    if s == [] then 0 else 26 * Decode(s[..|s| - 1]) + LetterValue(s[|s| - 1])
  }

  /** The name of column `n`, one `divmod(n - 1, 26)` step per letter; empty when `n <= 0`. */
  function Encode(n: int): (s: string)
    ensures AllLetters(s)
    ensures n > 0 <==> s != []
    decreases n
  {
    if n <= 0 then "" else Encode((n - 1) / 26) + [Letter((n - 1) % 26)]
  }

  /** Decoding the name of a positive column number gives the number back. */
  lemma {:induction false} DecodeEncode(n: int)
    requires n >= 1
    ensures Decode(Encode(n)) == n
    decreases n
  {
    var s := Encode(n);
    assert s[..|s| - 1] == Encode((n - 1) / 26);
    if (n - 1) / 26 >= 1 {
      DecodeEncode((n - 1) / 26);
    }
  }

  /** Encoding the number of any name gives the name back, so every name of letters
      is the name of exactly one column. */
  lemma {:induction false} EncodeDecode(s: string)
    requires AllLetters(s)
    ensures Encode(Decode(s)) == s
  {
    if s != [] {
      var init, last := s[..|s| - 1], s[|s| - 1];
      EncodeDecode(init);
      var n := Decode(s);
      assert n - 1 == 26 * Decode(init) + (LetterValue(last) - 1);
      assert (n - 1) / 26 == Decode(init) && (n - 1) % 26 == LetterValue(last) - 1;
      assert Letter(LetterValue(last) - 1) == last;
      assert s == init + [last];
    }
  }

  /** Different positive column numbers get different names. */
  lemma EncodeInjective(m: int, n: int)
    requires m >= 1 && n >= 1 && Encode(m) == Encode(n)
    ensures m == n
  {
    DecodeEncode(m);
    DecodeEncode(n);
  }

  /** `column_num2str(n)`: the loop prepends one letter per `divmod(n - 1, 26)` step. */
  method ColumnNum2Str(n: int) returns (s: string)
    ensures s == Encode(n)
    ensures n <= 0 ==> s == ""
    ensures n > 0 ==> s != [] && AllLetters(s) && Decode(s) == n
  {
    var m := n;
    s := "";
    while m > 0
      invariant Encode(n) == Encode(m) + s
      decreases m
    {
      var q, r := (m - 1) / 26, (m - 1) % 26;
      s := [Letter(r)] + s;
      m := q;
    }
    if n > 0 {
      DecodeEncode(n);
    }
  }

  lemma Examples()
    ensures Encode(1) == "A" && Encode(26) == "Z" && Encode(27) == "AA"
    ensures Encode(52) == "AZ" && Encode(703) == "AAA"
  {
  }
}
