/** `slugify`: rewrites a string into a URL-friendly slug by a fixed pipeline of
    rewrites. Character classes are those of ASCII: `lower()` lowercases 'A'..'Z',
    the word characters of `\w` are ASCII letters, digits and '_', and the
    whitespace of `\s` and `strip()` is the ASCII whitespace. */
module Slugs {

  predicate IsUpper(c: char) {
    'A' <= c <= 'Z'
  }

  /** The characters a slug is made of, besides '-'. */
  predicate IsLowerAlnum(c: char) {
    'a' <= c <= 'z' || '0' <= c <= '9'
  }

  /** A word character of `\w`; its complement is `\W`. */
  predicate IsWordChar(c: char) {
    'a' <= c <= 'z' || 'A' <= c <= 'Z' || '0' <= c <= '9' || c == '_'
  }

  /** A whitespace character of `\s` and `str.strip`. */
  predicate IsSpace(c: char) {
    c == ' ' || c == '\t' || c == '\n' || c == '\r' || c == '\U{0B}' || c == '\U{0C}'
  }

  /** The characters `slugify` first turns into '_'. */
  const Separators: seq<char> := [' ', '-', '.', '/']

  /** A well-formed slug: lowercase letters and digits in runs joined by single '-'. */
  predicate IsSlug(r: string) {
    (forall i | 0 <= i < |r| :: IsLowerAlnum(r[i]) || r[i] == '-')
    && (r != [] ==> r[0] != '-' && r[|r| - 1] != '-')
    && (forall i | 0 <= i < |r| - 1 :: r[i] == '-' ==> r[i + 1] != '-')
  }

  // ---------------------------------------------------------------------------
  // The string operations the pipeline uses

  function ToLower(c: char): char {
    if IsUpper(c) then (c as int + 32) as char else c
  }

  /** `s.lower()`. */
  function Lower(s: string): (r: string)
    ensures |r| == |s| && forall i | 0 <= i < |r| :: !IsUpper(r[i])
  {
    seq(|s|, i requires 0 <= i < |s| => ToLower(s[i]))
  }

  /** `s.replace(a, b)` for single characters. */
  function Replace(s: string, a: char, b: char): (r: string)
    ensures |r| == |s|
    ensures a != b ==> forall i | 0 <= i < |r| :: r[i] != a
  {
    seq(|s|, i requires 0 <= i < |s| => if s[i] == a then b else s[i])
  }

  /** `for c in olds: s = s.replace(c, b)`, one character after another. */
  function ReplaceEach(s: string, olds: seq<char>, b: char): (r: string)
    ensures |r| == |s|
  {
    if olds == [] then s else Replace(ReplaceEach(s, olds[..|olds| - 1], b), olds[|olds| - 1], b)
  }

  /** `rx_sub('\W', '', s)`: every non-word character removed. */
  function DeleteNonWord(s: string): (r: string)
    ensures |r| <= |s|
  {
    if s == [] then [] else (if IsWordChar(s[0]) then [s[0]] else []) + DeleteNonWord(s[1..])
  }

  /** The longest suffix of `s` that does not start with whitespace. */
  function SkipSpaces(s: string): (r: string)
    ensures |r| <= |s| && r == s[|s| - |r|..]
    ensures r != [] ==> !IsSpace(r[0])
  {
    if s != [] && IsSpace(s[0]) then SkipSpaces(s[1..]) else s
  }

  /** The longest prefix of `s` that does not end with whitespace. */
  function TrimEnd(s: string): (r: string)
    ensures |r| <= |s| && r == s[..|r|]
    ensures r != [] ==> !IsSpace(r[|r| - 1])
  {
    if s != [] && IsSpace(s[|s| - 1]) then TrimEnd(s[..|s| - 1]) else s
  }

  /** `s.strip()`. */
  function Strip(s: string): (r: string)
    ensures |r| <= |s|
    ensures r != [] ==> !IsSpace(r[0]) && !IsSpace(r[|r| - 1])
  {
    TrimEnd(SkipSpaces(s))
  }

  /** `rx_sub('\s+', ' ', s)`: every maximal run of whitespace replaced by one ' '. */
  function CollapseSpaces(s: string): (r: string)
    ensures |r| <= |s|
    decreases |s|
  {
    if s == [] then []
    else if IsSpace(s[0]) then [' '] + CollapseSpaces(SkipSpaces(s[1..]))
    else [s[0]] + CollapseSpaces(s[1..])
  }

  // ---------------------------------------------------------------------------
  // The pipeline

  /** The string after the first two steps: lowercased, separators made '_'. */
  function Separated(s: string): string {
    ReplaceEach(Lower(s), Separators, '_')
  }

  /** The slug of `s`, step by step as `slugify` computes it. */
  function Slug(s: string): (r: string)
    ensures |r| <= |s|
  {
    var words := DeleteNonWord(Separated(s));
    var spaced := CollapseSpaces(Replace(words, '_', ' '));
    Replace(Strip(spaced), ' ', '-')
  }

  /** `slugify(s)`: reassigns `s` once per rewrite, looping over the separators. */
  method Slugify(input: string) returns (s: string)
    ensures s == Slug(input)
    ensures IsSlug(s)
    ensures KeepAlnum(s) == KeepAlnum(Lower(input))
  {
    s := Lower(input);
    for k := 0 to |Separators|
      invariant s == ReplaceEach(Lower(input), Separators[..k], '_')
    {
      assert Separators[..k + 1][..k] == Separators[..k];
      s := Replace(s, Separators[k], '_');
    }
    assert Separators[..|Separators|] == Separators;
    s := DeleteNonWord(s);
    s := Replace(s, '_', ' ');
    s := CollapseSpaces(s);
    s := Strip(s);
    s := Replace(s, ' ', '-');
    SlugIsSlug(input);
    SlugKeepsAlnum(input);
  }

  // ---------------------------------------------------------------------------
  // Facts about the string operations

  /** After the replacements, each character was either replaced or left as it was. */
  lemma {:induction false} ReplaceEachAt(s: string, olds: seq<char>, b: char, i: int)
    requires 0 <= i < |s|
    ensures |ReplaceEach(s, olds, b)| == |s|
    ensures ReplaceEach(s, olds, b)[i] == if s[i] in olds then b else s[i]
  {
    if olds != [] {
      var init := olds[..|olds| - 1];
      ReplaceEachAt(s, init, b, i);
      assert forall c :: c in olds <==> c in init || c == olds[|olds| - 1] by {
        assert olds == init + [olds[|olds| - 1]];
      }
    }
  }

  lemma {:induction false} DeleteNonWordChars(s: string)
    ensures forall c | c in DeleteNonWord(s) :: IsWordChar(c) && c in s
  {
    if s != [] {
      DeleteNonWordChars(s[1..]);
    }
  }

  lemma {:induction false} DeleteNonWordOfWords(s: string)
    requires forall i | 0 <= i < |s| :: IsWordChar(s[i])
    ensures DeleteNonWord(s) == s
  {
    if s != [] {
      DeleteNonWordOfWords(s[1..]);
    }
  }

  /** Text whose only whitespace is single ' ' characters between lowercase letters and digits. */
  predicate SpacedText(s: string) {
    (forall i | 0 <= i < |s| :: IsLowerAlnum(s[i]) || s[i] == ' ')
    && (forall i | 0 <= i < |s| - 1 :: s[i] == ' ' ==> s[i + 1] != ' ')
  }

  lemma {:induction false} CollapseShape(s: string)
    requires forall i | 0 <= i < |s| :: IsLowerAlnum(s[i]) || IsSpace(s[i])
    ensures SpacedText(CollapseSpaces(s))
    ensures CollapseSpaces(s) != [] && CollapseSpaces(s)[0] == ' ' ==> IsSpace(s[0])
    decreases |s|
  {
    if s != [] {
      if IsSpace(s[0]) {
        var rest := SkipSpaces(s[1..]);
        assert forall i | 0 <= i < |rest| :: rest[i] == s[1..][|s[1..]| - |rest| + i];
        CollapseShape(rest);
        var r := CollapseSpaces(rest);
        assert CollapseSpaces(s) == [' '] + r;
      } else {
        CollapseShape(s[1..]);
        assert CollapseSpaces(s) == [s[0]] + CollapseSpaces(s[1..]);
      }
    }
  }

  lemma SpacedSlice(s: string, lo: int, hi: int)
    requires SpacedText(s) && 0 <= lo <= hi <= |s|
    ensures SpacedText(s[lo..hi])
  {
    var t := s[lo..hi];
    forall i | 0 <= i < |t|
      ensures IsLowerAlnum(t[i]) || t[i] == ' '
    {
      assert t[i] == s[lo + i];
    }
    forall i | 0 <= i < |t| - 1
      ensures t[i] == ' ' ==> t[i + 1] != ' '
    {
      assert t[i] == s[lo + i] && t[i + 1] == s[lo + i + 1];
    }
  }

  /** Text that does not start with whitespace is its own `SkipSpaces`. */
  lemma SkipNoSpaces(s: string)
    requires s != [] ==> !IsSpace(s[0])
    ensures SkipSpaces(s) == s
  {
  }

  lemma {:induction false} CollapseOfSpaced(s: string)
    requires SpacedText(s)
    ensures CollapseSpaces(s) == s
  {
    if s != [] {
      var tail := s[1..];
      SpacedSlice(s, 1, |s|);
      CollapseOfSpaced(tail);
      assert s == [s[0]] + tail;
      if s[0] == ' ' {
        assert tail != [] ==> s[1] != ' ' && IsLowerAlnum(s[1]) && tail[0] == s[1];
        SkipNoSpaces(tail);
      }
    }
  }

  lemma StripShape(s: string)
    requires SpacedText(s)
    ensures SpacedText(Strip(s))
    ensures Strip(s) != [] ==> Strip(s)[0] != ' ' && Strip(s)[|Strip(s)| - 1] != ' '
  {
    var t := SkipSpaces(s);
    SpacedSlice(s, |s| - |t|, |s|);
    var u := TrimEnd(t);
    SpacedSlice(t, 0, |u|);
    assert u != [] ==> u[0] == t[0];
  }

  lemma StripOfSpaced(s: string)
    requires SpacedText(s)
    requires s != [] ==> s[0] != ' ' && s[|s| - 1] != ' '
    ensures Strip(s) == s
  {
    assert s != [] ==> !IsSpace(s[0]) && !IsSpace(s[|s| - 1]);
  }

  // ---------------------------------------------------------------------------
  // The shape of a slug, and idempotence

  /** Every result of the pipeline is a well-formed slug: only lowercase letters, digits
      and '-', no '_' and no whitespace, no '-' at either end and never "--". */
  lemma SlugIsSlug(s: string)
    ensures IsSlug(Slug(s))
  {
    WordsShape(s);
    SlugOfWords(DeleteNonWord(Separated(s)));
  }

  /** Text of lowercase letters, digits and '_'. */
  predicate WordText(s: string) {
    forall i | 0 <= i < |s| :: IsLowerAlnum(s[i]) || s[i] == '_'
  }

  /** After `\W` is removed only lowercase letters, digits and '_' are left. */
  lemma WordsShape(s: string)
    ensures WordText(DeleteNonWord(Separated(s)))
  {
    var t1 := Separated(s);
    forall i | 0 <= i < |t1|
      ensures !IsUpper(t1[i])
    {
      ReplaceEachAt(Lower(s), Separators, '_', i);
    }
    var t2 := DeleteNonWord(t1);
    DeleteNonWordChars(t1);
    forall i | 0 <= i < |t2|
      ensures IsLowerAlnum(t2[i]) || t2[i] == '_'
    {
      assert t2[i] in t2;
    }
  }

  /** The last four steps turn lowercase letters, digits and '_' into a slug. */
  lemma SlugOfWords(t2: string)
    requires WordText(t2)
    ensures IsSlug(Replace(Strip(CollapseSpaces(Replace(t2, '_', ' '))), ' ', '-'))
  {
    var t3 := Replace(t2, '_', ' ');
    assert forall i | 0 <= i < |t3| :: IsLowerAlnum(t3[i]) || IsSpace(t3[i]);
    CollapseShape(t3);
    var t4 := CollapseSpaces(t3);
    StripShape(t4);
    SlugOfStripped(Strip(t4));
  }

  /** Single-spaced text without outer spaces becomes a slug once its spaces are '-'. */
  lemma SlugOfStripped(u: string)
    requires SpacedText(u) && (u != [] ==> u[0] != ' ' && u[|u| - 1] != ' ')
    ensures IsSlug(Replace(u, ' ', '-'))
  {
  }

  /** A well-formed slug is left as it is. */
  lemma SeparatedOfSlug(w: string)
    requires IsSlug(w)
    ensures Separated(w) == Replace(w, '-', '_')
  {
    var u := Replace(w, '-', '_');
    assert Lower(w) == w;
    forall i | 0 <= i < |w|
      ensures Separated(w)[i] == u[i]
    {
      ReplaceEachAt(w, Separators, '_', i);
    }
  }

  lemma SpacedOfSlug(w: string)
    requires IsSlug(w)
    ensures SpacedText(Replace(w, '-', ' '))
  {
    var v := Replace(w, '-', ' ');
    forall i | 0 <= i < |v| - 1
      ensures v[i] == ' ' ==> v[i + 1] != ' '
    {
      assert v[i] == ' ' ==> w[i] == '-';
      assert v[i + 1] == ' ' ==> w[i + 1] == '-';
    }
  }

  /** A well-formed slug is left as it is. */
  lemma SlugOfSlug(w: string)
    requires IsSlug(w)
    ensures Slug(w) == w
  {
    SeparatedOfSlug(w);
    var u := Replace(w, '-', '_');
    DeleteNonWordOfWords(u);
    var v := Replace(u, '_', ' ');
    assert v == Replace(w, '-', ' ');
    SpacedOfSlug(w);
    CollapseOfSpaced(v);
    assert v != [] ==> v[0] == w[0] && v[|v| - 1] == w[|w| - 1];
    StripOfSpaced(v);
    assert Replace(v, ' ', '-') == w;
  }

  /** `slugify` is idempotent. */
  lemma SlugIdempotent(s: string)
    ensures Slug(Slug(s)) == Slug(s)
  {
    SlugIsSlug(s);
    SlugOfSlug(Slug(s));
  }

  // ---------------------------------------------------------------------------
  // What the slug keeps

  /** The lowercase letters and digits of `s`, in order. */
  function KeepAlnum(s: string): string {
    if s == [] then [] else (if IsLowerAlnum(s[0]) then [s[0]] else []) + KeepAlnum(s[1..])
  }

  lemma {:induction false} KeepAlnumAppend(a: string, b: string)
    ensures KeepAlnum(a + b) == KeepAlnum(a) + KeepAlnum(b)
  {
    if a == [] {
      assert a + b == b;
    } else {
      var head := if IsLowerAlnum(a[0]) then [a[0]] else [];
      assert (a + b)[0] == a[0] && (a + b)[1..] == a[1..] + b;
      KeepAlnumAppend(a[1..], b);
      calc {
        KeepAlnum(a + b);
        head + KeepAlnum(a[1..] + b);
        head + (KeepAlnum(a[1..]) + KeepAlnum(b));
      }
    }
  }

  lemma {:induction false} KeepAlnumReplace(s: string, a: char, b: char)
    requires !IsLowerAlnum(a) && !IsLowerAlnum(b)
    ensures KeepAlnum(Replace(s, a, b)) == KeepAlnum(s)
  {
    if s != [] {
      assert Replace(s, a, b)[1..] == Replace(s[1..], a, b);
      KeepAlnumReplace(s[1..], a, b);
    }
  }

  lemma {:induction false} KeepAlnumReplaceEach(s: string, olds: seq<char>, b: char)
    requires forall i | 0 <= i < |olds| :: !IsLowerAlnum(olds[i])
    requires !IsLowerAlnum(b)
    ensures KeepAlnum(ReplaceEach(s, olds, b)) == KeepAlnum(s)
  {
    if olds != [] {
      KeepAlnumReplaceEach(s, olds[..|olds| - 1], b);
      KeepAlnumReplace(ReplaceEach(s, olds[..|olds| - 1], b), olds[|olds| - 1], b);
    }
  }

  lemma {:induction false} KeepAlnumDeleteNonWord(s: string)
    ensures KeepAlnum(DeleteNonWord(s)) == KeepAlnum(s)
  {
    if s != [] {
      KeepAlnumDeleteNonWord(s[1..]);
      if IsWordChar(s[0]) {
        KeepAlnumAppend([s[0]], DeleteNonWord(s[1..]));
        assert [s[0]][1..] == [];
      } else {
        assert DeleteNonWord(s) == DeleteNonWord(s[1..]);
      }
    }
  }

  lemma {:induction false} KeepAlnumSkipSpaces(s: string)
    ensures KeepAlnum(SkipSpaces(s)) == KeepAlnum(s)
  {
    if s != [] && IsSpace(s[0]) {
      KeepAlnumSkipSpaces(s[1..]);
    }
  }

  lemma {:induction false} KeepAlnumTrimEnd(s: string)
    ensures KeepAlnum(TrimEnd(s)) == KeepAlnum(s)
  {
    if s != [] && IsSpace(s[|s| - 1]) {
      var init := s[..|s| - 1];
      KeepAlnumTrimEnd(init);
      assert s == init + [s[|s| - 1]];
      KeepAlnumAppend(init, [s[|s| - 1]]);
    }
  }

  lemma {:induction false} KeepAlnumCollapse(s: string)
    ensures KeepAlnum(CollapseSpaces(s)) == KeepAlnum(s)
    decreases |s|
  {
    if s != [] {
      if IsSpace(s[0]) {
        KeepAlnumSkipSpaces(s[1..]);
        KeepAlnumCollapse(SkipSpaces(s[1..]));
        KeepAlnumAppend([' '], CollapseSpaces(SkipSpaces(s[1..])));
      } else {
        KeepAlnumCollapse(s[1..]);
        KeepAlnumAppend([s[0]], CollapseSpaces(s[1..]));
      }
    }
  }

  /** The slug keeps exactly the lowercase letters and digits of the lowercased input, in
      order; everything else is dropped or becomes a '-' between them. */
  lemma SlugKeepsAlnum(s: string)
    ensures KeepAlnum(Slug(s)) == KeepAlnum(Lower(s))
  {
    KeepAlnumReplaceEach(Lower(s), Separators, '_');
    var words := DeleteNonWord(Separated(s));
    KeepAlnumDeleteNonWord(Separated(s));
    KeepAlnumReplace(words, '_', ' ');
    var spaced := CollapseSpaces(Replace(words, '_', ' '));
    KeepAlnumCollapse(Replace(words, '_', ' '));
    KeepAlnumSkipSpaces(spaced);
    KeepAlnumTrimEnd(SkipSpaces(spaced));
    KeepAlnumReplace(Strip(spaced), ' ', '-');
  }
}
