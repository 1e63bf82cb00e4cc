/** The part of Unicode the name normalisers depend on, restricted to the
    modelled alphabet: ASCII and the precomposed letters of Vietnamese. */
module Unicode {

  /** A combining diacritical mark, U+0300..U+036F: the range the normalisers strip. */
  predicate IsCombiningMark(c: char) {
    '\U{0300}' <= c <= '\U{036F}'
  }

  /** The characters of the ECMAScript class \s (WhiteSpace and LineTerminator);
      String.prototype.trim removes the same set. */
  predicate IsWhitespace(c: char) {
    || c == '\U{0009}' || c == '\U{000A}' || c == '\U{000B}' || c == '\U{000C}'
    || c == '\U{000D}' || c == ' ' || c == '\U{00A0}' || c == '\U{1680}'
    || ('\U{2000}' <= c <= '\U{200A}') || c == '\U{2028}' || c == '\U{2029}'
    || c == '\U{202F}' || c == '\U{205F}' || c == '\U{3000}' || c == '\U{FEFF}'
  }

  predicate IsAsciiLetter(c: char) {
    ('a' <= c <= 'z') || ('A' <= c <= 'Z')
  }

  /** The shape of a canonical decomposition: the character itself, or an ASCII
      base letter followed by combining marks. */
  predicate IsDecompositionShape(c: char, d: seq<char>) {
    |d| >= 1 && (d == [c] || (IsAsciiLetter(d[0]) && forall i :: 1 <= i < |d| ==> IsCombiningMark(d[i])))
  }

  /** Canonical decomposition (NFD) of one character. The precomposed Vietnamese
      vowel letters decompose into an ASCII base letter followed by combining marks;
      every other character is treated as already decomposed. The table is split
      by Unicode block. */
  function Decompose(c: char): (d: seq<char>)
    ensures |d| >= 1
    ensures d == [c] || (IsAsciiLetter(d[0]) && forall i :: 1 <= i < |d| ==> IsCombiningMark(d[i]))
  {
    var d :=
      if c < '\U{00C0}' then [c]
      else if c < '\U{0100}' then DecomposeLatin1(c)
      else if c < '\U{1E00}' then DecomposeLatinExtended(c)
      else if c < '\U{1EC8}' then DecomposeVietnameseLow(c)
      else if c < '\U{1EE4}' then DecomposeVietnameseMid(c)
      else DecomposeVietnameseHigh(c);
    assert IsDecompositionShape(c, d);
    d
  }

  /** The decompositions of the precomposed letters of Latin-1 Supplement. */
  function DecomposeLatin1(c: char): (d: seq<char>)
    ensures IsDecompositionShape(c, d)
  {
    match c
    case '\U{00E0}' => "a\U{0300}"
    case '\U{00C0}' => "A\U{0300}"
    case '\U{00E1}' => "a\U{0301}"
    case '\U{00C1}' => "A\U{0301}"
    case '\U{00E3}' => "a\U{0303}"
    case '\U{00C3}' => "A\U{0303}"
    case '\U{00E2}' => "a\U{0302}"
    case '\U{00C2}' => "A\U{0302}"
    case '\U{00E8}' => "e\U{0300}"
    case '\U{00C8}' => "E\U{0300}"
    case '\U{00E9}' => "e\U{0301}"
    case '\U{00C9}' => "E\U{0301}"
    case '\U{00EA}' => "e\U{0302}"
    case '\U{00CA}' => "E\U{0302}"
    case '\U{00EC}' => "i\U{0300}"
    case '\U{00CC}' => "I\U{0300}"
    case '\U{00ED}' => "i\U{0301}"
    case '\U{00CD}' => "I\U{0301}"
    case '\U{00F2}' => "o\U{0300}"
    case '\U{00D2}' => "O\U{0300}"
    case '\U{00F3}' => "o\U{0301}"
    case '\U{00D3}' => "O\U{0301}"
    case '\U{00F5}' => "o\U{0303}"
    case '\U{00D5}' => "O\U{0303}"
    case '\U{00F4}' => "o\U{0302}"
    case '\U{00D4}' => "O\U{0302}"
    case '\U{00F9}' => "u\U{0300}"
    case '\U{00D9}' => "U\U{0300}"
    case '\U{00FA}' => "u\U{0301}"
    case '\U{00DA}' => "U\U{0301}"
    case '\U{00FD}' => "y\U{0301}"
    case '\U{00DD}' => "Y\U{0301}"
    case _ => [c]
  }

  /** The decompositions of the precomposed letters of Latin Extended-A and -B. */
  function DecomposeLatinExtended(c: char): (d: seq<char>)
    ensures IsDecompositionShape(c, d)
  {
    match c
    case '\U{0103}' => "a\U{0306}"
    case '\U{0102}' => "A\U{0306}"
    case '\U{0129}' => "i\U{0303}"
    case '\U{0128}' => "I\U{0303}"
    case '\U{01A1}' => "o\U{031B}"
    case '\U{01A0}' => "O\U{031B}"
    case '\U{0169}' => "u\U{0303}"
    case '\U{0168}' => "U\U{0303}"
    case '\U{01B0}' => "u\U{031B}"
    case '\U{01AF}' => "U\U{031B}"
    case _ => [c]
  }

  /** The decompositions of the precomposed letters U+1EA0..U+1EC7 of Latin Extended Additional. */
  function DecomposeVietnameseLow(c: char): (d: seq<char>)
    ensures IsDecompositionShape(c, d)
  {
    match c
    case '\U{1EA3}' => "a\U{0309}"
    case '\U{1EA2}' => "A\U{0309}"
    case '\U{1EA1}' => "a\U{0323}"
    case '\U{1EA0}' => "A\U{0323}"
    case '\U{1EB1}' => "a\U{0306}\U{0300}"
    case '\U{1EB0}' => "A\U{0306}\U{0300}"
    case '\U{1EAF}' => "a\U{0306}\U{0301}"
    case '\U{1EAE}' => "A\U{0306}\U{0301}"
    case '\U{1EB3}' => "a\U{0306}\U{0309}"
    case '\U{1EB2}' => "A\U{0306}\U{0309}"
    case '\U{1EB5}' => "a\U{0306}\U{0303}"
    case '\U{1EB4}' => "A\U{0306}\U{0303}"
    case '\U{1EB7}' => "a\U{0323}\U{0306}"
    case '\U{1EB6}' => "A\U{0323}\U{0306}"
    case '\U{1EA7}' => "a\U{0302}\U{0300}"
    case '\U{1EA6}' => "A\U{0302}\U{0300}"
    case '\U{1EA5}' => "a\U{0302}\U{0301}"
    case '\U{1EA4}' => "A\U{0302}\U{0301}"
    case '\U{1EA9}' => "a\U{0302}\U{0309}"
    case '\U{1EA8}' => "A\U{0302}\U{0309}"
    case '\U{1EAB}' => "a\U{0302}\U{0303}"
    case '\U{1EAA}' => "A\U{0302}\U{0303}"
    case '\U{1EAD}' => "a\U{0323}\U{0302}"
    case '\U{1EAC}' => "A\U{0323}\U{0302}"
    case '\U{1EBB}' => "e\U{0309}"
    case '\U{1EBA}' => "E\U{0309}"
    case '\U{1EBD}' => "e\U{0303}"
    case '\U{1EBC}' => "E\U{0303}"
    case '\U{1EB9}' => "e\U{0323}"
    case '\U{1EB8}' => "E\U{0323}"
    case '\U{1EC1}' => "e\U{0302}\U{0300}"
    case '\U{1EC0}' => "E\U{0302}\U{0300}"
    case '\U{1EBF}' => "e\U{0302}\U{0301}"
    case '\U{1EBE}' => "E\U{0302}\U{0301}"
    case '\U{1EC3}' => "e\U{0302}\U{0309}"
    case '\U{1EC2}' => "E\U{0302}\U{0309}"
    case '\U{1EC5}' => "e\U{0302}\U{0303}"
    case '\U{1EC4}' => "E\U{0302}\U{0303}"
    case '\U{1EC7}' => "e\U{0323}\U{0302}"
    case '\U{1EC6}' => "E\U{0323}\U{0302}"
    case _ => [c]
  }

  /** The decompositions of the precomposed letters U+1EC8..U+1EE3 of Latin Extended Additional. */
  function DecomposeVietnameseMid(c: char): (d: seq<char>)
    ensures IsDecompositionShape(c, d)
  {
    match c
    case '\U{1EC9}' => "i\U{0309}"
    case '\U{1EC8}' => "I\U{0309}"
    case '\U{1ECB}' => "i\U{0323}"
    case '\U{1ECA}' => "I\U{0323}"
    case '\U{1ECF}' => "o\U{0309}"
    case '\U{1ECE}' => "O\U{0309}"
    case '\U{1ECD}' => "o\U{0323}"
    case '\U{1ECC}' => "O\U{0323}"
    case '\U{1ED3}' => "o\U{0302}\U{0300}"
    case '\U{1ED2}' => "O\U{0302}\U{0300}"
    case '\U{1ED1}' => "o\U{0302}\U{0301}"
    case '\U{1ED0}' => "O\U{0302}\U{0301}"
    case '\U{1ED5}' => "o\U{0302}\U{0309}"
    case '\U{1ED4}' => "O\U{0302}\U{0309}"
    case '\U{1ED7}' => "o\U{0302}\U{0303}"
    case '\U{1ED6}' => "O\U{0302}\U{0303}"
    case '\U{1ED9}' => "o\U{0323}\U{0302}"
    case '\U{1ED8}' => "O\U{0323}\U{0302}"
    case '\U{1EDD}' => "o\U{031B}\U{0300}"
    case '\U{1EDC}' => "O\U{031B}\U{0300}"
    case '\U{1EDB}' => "o\U{031B}\U{0301}"
    case '\U{1EDA}' => "O\U{031B}\U{0301}"
    case '\U{1EDF}' => "o\U{031B}\U{0309}"
    case '\U{1EDE}' => "O\U{031B}\U{0309}"
    case '\U{1EE1}' => "o\U{031B}\U{0303}"
    case '\U{1EE0}' => "O\U{031B}\U{0303}"
    case '\U{1EE3}' => "o\U{031B}\U{0323}"
    case '\U{1EE2}' => "O\U{031B}\U{0323}"
    case _ => [c]
  }

  /** The decompositions of the precomposed letters U+1EE4..U+1EF9 of Latin Extended Additional. */
  function DecomposeVietnameseHigh(c: char): (d: seq<char>)
    ensures IsDecompositionShape(c, d)
  {
    match c
    case '\U{1EE7}' => "u\U{0309}"
    case '\U{1EE6}' => "U\U{0309}"
    case '\U{1EE5}' => "u\U{0323}"
    case '\U{1EE4}' => "U\U{0323}"
    case '\U{1EEB}' => "u\U{031B}\U{0300}"
    case '\U{1EEA}' => "U\U{031B}\U{0300}"
    case '\U{1EE9}' => "u\U{031B}\U{0301}"
    case '\U{1EE8}' => "U\U{031B}\U{0301}"
    case '\U{1EED}' => "u\U{031B}\U{0309}"
    case '\U{1EEC}' => "U\U{031B}\U{0309}"
    case '\U{1EEF}' => "u\U{031B}\U{0303}"
    case '\U{1EEE}' => "U\U{031B}\U{0303}"
    case '\U{1EF1}' => "u\U{031B}\U{0323}"
    case '\U{1EF0}' => "U\U{031B}\U{0323}"
    case '\U{1EF3}' => "y\U{0300}"
    case '\U{1EF2}' => "Y\U{0300}"
    case '\U{1EF7}' => "y\U{0309}"
    case '\U{1EF6}' => "Y\U{0309}"
    case '\U{1EF9}' => "y\U{0303}"
    case '\U{1EF8}' => "Y\U{0303}"
    case '\U{1EF5}' => "y\U{0323}"
    case '\U{1EF4}' => "Y\U{0323}"
    case _ => [c]
  }

  /** Upper-case mapping of one character; only letters with a case partner change (String.prototype.toUpperCase restricted
      to the modelled alphabet). */
  function ToUpperChar(c: char): char {
    if 'a' <= c <= 'z' then (c as int - 32) as char
    else if c == '\U{0111}' then '\U{0110}'
    else if |Decompose(c)| == 1 then c
    else if c < '\U{0100}' then UpperLatin1(c)
    else if c < '\U{1E00}' then UpperLatinExtended(c)
    else if c < '\U{1EC8}' then UpperVietnameseLow(c)
    else UpperVietnameseHigh(c)
  }

  /** The upper-case forms of the precomposed letters of Latin-1 Supplement. */
  function UpperLatin1(c: char): char {
    match c
    case '\U{00E0}' => '\U{00C0}'
    case '\U{00E1}' => '\U{00C1}'
    case '\U{00E3}' => '\U{00C3}'
    case '\U{00E2}' => '\U{00C2}'
    case '\U{00E8}' => '\U{00C8}'
    case '\U{00E9}' => '\U{00C9}'
    case '\U{00EA}' => '\U{00CA}'
    case '\U{00EC}' => '\U{00CC}'
    case '\U{00ED}' => '\U{00CD}'
    case '\U{00F2}' => '\U{00D2}'
    case '\U{00F3}' => '\U{00D3}'
    case '\U{00F5}' => '\U{00D5}'
    case '\U{00F4}' => '\U{00D4}'
    case '\U{00F9}' => '\U{00D9}'
    case '\U{00FA}' => '\U{00DA}'
    case '\U{00FD}' => '\U{00DD}'
    case _ => c
  }

  /** The upper-case forms of the precomposed letters of Latin Extended-A and -B. */
  function UpperLatinExtended(c: char): char {
    match c
    case '\U{0103}' => '\U{0102}'
    case '\U{0129}' => '\U{0128}'
    case '\U{01A1}' => '\U{01A0}'
    case '\U{0169}' => '\U{0168}'
    case '\U{01B0}' => '\U{01AF}'
    case _ => c
  }

  /** The upper-case forms of the precomposed letters of U+1EA0..U+1EC7 of Latin Extended Additional. */
  function UpperVietnameseLow(c: char): char {
    match c
    case '\U{1EA3}' => '\U{1EA2}'
    case '\U{1EA1}' => '\U{1EA0}'
    case '\U{1EB1}' => '\U{1EB0}'
    case '\U{1EAF}' => '\U{1EAE}'
    case '\U{1EB3}' => '\U{1EB2}'
    case '\U{1EB5}' => '\U{1EB4}'
    case '\U{1EB7}' => '\U{1EB6}'
    case '\U{1EA7}' => '\U{1EA6}'
    case '\U{1EA5}' => '\U{1EA4}'
    case '\U{1EA9}' => '\U{1EA8}'
    case '\U{1EAB}' => '\U{1EAA}'
    case '\U{1EAD}' => '\U{1EAC}'
    case '\U{1EBB}' => '\U{1EBA}'
    case '\U{1EBD}' => '\U{1EBC}'
    case '\U{1EB9}' => '\U{1EB8}'
    case '\U{1EC1}' => '\U{1EC0}'
    case '\U{1EBF}' => '\U{1EBE}'
    case '\U{1EC3}' => '\U{1EC2}'
    case '\U{1EC5}' => '\U{1EC4}'
    case '\U{1EC7}' => '\U{1EC6}'
    case _ => c
  }

  /** The upper-case forms of the precomposed letters of U+1EC8..U+1EF9 of Latin Extended Additional. */
  function UpperVietnameseHigh(c: char): char {
    match c
    case '\U{1EC9}' => '\U{1EC8}'
    case '\U{1ECB}' => '\U{1ECA}'
    case '\U{1ECF}' => '\U{1ECE}'
    case '\U{1ECD}' => '\U{1ECC}'
    case '\U{1ED3}' => '\U{1ED2}'
    case '\U{1ED1}' => '\U{1ED0}'
    case '\U{1ED5}' => '\U{1ED4}'
    case '\U{1ED7}' => '\U{1ED6}'
    case '\U{1ED9}' => '\U{1ED8}'
    case '\U{1EDD}' => '\U{1EDC}'
    case '\U{1EDB}' => '\U{1EDA}'
    case '\U{1EDF}' => '\U{1EDE}'
    case '\U{1EE1}' => '\U{1EE0}'
    case '\U{1EE3}' => '\U{1EE2}'
    case '\U{1EE7}' => '\U{1EE6}'
    case '\U{1EE5}' => '\U{1EE4}'
    case '\U{1EEB}' => '\U{1EEA}'
    case '\U{1EE9}' => '\U{1EE8}'
    case '\U{1EED}' => '\U{1EEC}'
    case '\U{1EEF}' => '\U{1EEE}'
    case '\U{1EF1}' => '\U{1EF0}'
    case '\U{1EF3}' => '\U{1EF2}'
    case '\U{1EF7}' => '\U{1EF6}'
    case '\U{1EF9}' => '\U{1EF8}'
    case '\U{1EF5}' => '\U{1EF4}'
    case _ => c
  }

  /** Lower-case mapping of one character (String.prototype.toLowerCase restricted
      to the modelled alphabet). */
  function ToLowerChar(c: char): char {
    if 'A' <= c <= 'Z' then (c as int + 32) as char
    else if c == '\U{0110}' then '\U{0111}'
    else if |Decompose(c)| == 1 then c
    else if c < '\U{0100}' then LowerLatin1(c)
    else if c < '\U{1E00}' then LowerLatinExtended(c)
    else if c < '\U{1EC8}' then LowerVietnameseLow(c)
    else LowerVietnameseHigh(c)
  }

  /** The lower-case forms of the precomposed letters of Latin-1 Supplement. */
  function LowerLatin1(c: char): char {
    match c
    case '\U{00C0}' => '\U{00E0}'
    case '\U{00C1}' => '\U{00E1}'
    case '\U{00C3}' => '\U{00E3}'
    case '\U{00C2}' => '\U{00E2}'
    case '\U{00C8}' => '\U{00E8}'
    case '\U{00C9}' => '\U{00E9}'
    case '\U{00CA}' => '\U{00EA}'
    case '\U{00CC}' => '\U{00EC}'
    case '\U{00CD}' => '\U{00ED}'
    case '\U{00D2}' => '\U{00F2}'
    case '\U{00D3}' => '\U{00F3}'
    case '\U{00D5}' => '\U{00F5}'
    case '\U{00D4}' => '\U{00F4}'
    case '\U{00D9}' => '\U{00F9}'
    case '\U{00DA}' => '\U{00FA}'
    case '\U{00DD}' => '\U{00FD}'
    case _ => c
  }

  /** The lower-case forms of the precomposed letters of Latin Extended-A and -B. */
  function LowerLatinExtended(c: char): char {
    match c
    case '\U{0102}' => '\U{0103}'
    case '\U{0128}' => '\U{0129}'
    case '\U{01A0}' => '\U{01A1}'
    case '\U{0168}' => '\U{0169}'
    case '\U{01AF}' => '\U{01B0}'
    case _ => c
  }

  /** The lower-case forms of the precomposed letters of U+1EA0..U+1EC7 of Latin Extended Additional. */
  function LowerVietnameseLow(c: char): char {
    match c
    case '\U{1EA2}' => '\U{1EA3}'
    case '\U{1EA0}' => '\U{1EA1}'
    case '\U{1EB0}' => '\U{1EB1}'
    case '\U{1EAE}' => '\U{1EAF}'
    case '\U{1EB2}' => '\U{1EB3}'
    case '\U{1EB4}' => '\U{1EB5}'
    case '\U{1EB6}' => '\U{1EB7}'
    case '\U{1EA6}' => '\U{1EA7}'
    case '\U{1EA4}' => '\U{1EA5}'
    case '\U{1EA8}' => '\U{1EA9}'
    case '\U{1EAA}' => '\U{1EAB}'
    case '\U{1EAC}' => '\U{1EAD}'
    case '\U{1EBA}' => '\U{1EBB}'
    case '\U{1EBC}' => '\U{1EBD}'
    case '\U{1EB8}' => '\U{1EB9}'
    case '\U{1EC0}' => '\U{1EC1}'
    case '\U{1EBE}' => '\U{1EBF}'
    case '\U{1EC2}' => '\U{1EC3}'
    case '\U{1EC4}' => '\U{1EC5}'
    case '\U{1EC6}' => '\U{1EC7}'
    case _ => c
  }

  /** The lower-case forms of the precomposed letters of U+1EC8..U+1EF9 of Latin Extended Additional. */
  function LowerVietnameseHigh(c: char): char {
    match c
    case '\U{1EC8}' => '\U{1EC9}'
    case '\U{1ECA}' => '\U{1ECB}'
    case '\U{1ECE}' => '\U{1ECF}'
    case '\U{1ECC}' => '\U{1ECD}'
    case '\U{1ED2}' => '\U{1ED3}'
    case '\U{1ED0}' => '\U{1ED1}'
    case '\U{1ED4}' => '\U{1ED5}'
    case '\U{1ED6}' => '\U{1ED7}'
    case '\U{1ED8}' => '\U{1ED9}'
    case '\U{1EDC}' => '\U{1EDD}'
    case '\U{1EDA}' => '\U{1EDB}'
    case '\U{1EDE}' => '\U{1EDF}'
    case '\U{1EE0}' => '\U{1EE1}'
    case '\U{1EE2}' => '\U{1EE3}'
    case '\U{1EE6}' => '\U{1EE7}'
    case '\U{1EE4}' => '\U{1EE5}'
    case '\U{1EEA}' => '\U{1EEB}'
    case '\U{1EE8}' => '\U{1EE9}'
    case '\U{1EEC}' => '\U{1EED}'
    case '\U{1EEE}' => '\U{1EEF}'
    case '\U{1EF0}' => '\U{1EF1}'
    case '\U{1EF2}' => '\U{1EF3}'
    case '\U{1EF6}' => '\U{1EF7}'
    case '\U{1EF8}' => '\U{1EF9}'
    case '\U{1EF4}' => '\U{1EF5}'
    case _ => c
  }


  /** A character the decomposition leaves alone. */
  predicate IsDecomposed(c: char) {
    Decompose(c) == [c]
  }

  /** An ASCII letter has no decomposition. */
  lemma AsciiLetterIsDecomposed(c: char)
    requires IsAsciiLetter(c)
    ensures IsDecomposed(c)
  {
  }

  /** Upper-casing a decomposed character that is neither a mark nor d-stroke yields
      a character of the same kind, is idempotent, and keeps whitespace apart. */
  lemma ToUpperCharStable(c: char)
    requires IsDecomposed(c) && !IsCombiningMark(c) && c != '\U{0111}' && c != '\U{0110}'
    ensures IsDecomposed(ToUpperChar(c)) && !IsCombiningMark(ToUpperChar(c))
    ensures ToUpperChar(c) != '\U{0111}' && ToUpperChar(c) != '\U{0110}'
    ensures ToUpperChar(ToUpperChar(c)) == ToUpperChar(c)
    ensures IsWhitespace(ToUpperChar(c)) <==> IsWhitespace(c)
  {
    if 'a' <= c <= 'z' {
      AsciiLetterIsDecomposed(ToUpperChar(c));
    }
  }

  /** String.prototype.toLowerCase over the modelled alphabet. */
  function ToLower(s: string): (r: string)
    ensures |r| == |s|
    ensures forall i :: 0 <= i < |s| ==> r[i] == ToLowerChar(s[i])
  {
    seq(|s|, i requires 0 <= i < |s| => ToLowerChar(s[i]))
  }

  /** String.prototype.toUpperCase over the modelled alphabet. */
  function ToUpper(s: string): (r: string)
    ensures |r| == |s|
    ensures forall i :: 0 <= i < |s| ==> r[i] == ToUpperChar(s[i])
  {
    seq(|s|, i requires 0 <= i < |s| => ToUpperChar(s[i]))
  }

  lemma ToUpperConcat(a: string, b: string)
    ensures ToUpper(a + b) == ToUpper(a) + ToUpper(b)
  {
    var l, r := ToUpper(a + b), ToUpper(a) + ToUpper(b);
    forall i | 0 <= i < |l| ensures l[i] == r[i] {
      if i < |a| {
        assert (a + b)[i] == a[i];
      } else {
        assert (a + b)[i] == b[i - |a|];
      }
    }
  }
}
