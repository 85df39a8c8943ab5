/** Pinyin normalisation shared by both front ends: lower-case the text, then
    replace every tone-marked vowel by its bare vowel (and ü by v), one output
    character per input character. */
module ToneMarks {
  import opened Playfield

  /** The tone table of `stripToneMarks` / `strip_tone_marks`: the bare vowel a
      tone-marked vowel stands for, or None for any other character. */
  function ToneBase(c: char): (r: Option<char>)
    ensures r.Some? ==> 'a' <= r.value <= 'z'
    ensures c < '\U{00C0}' ==> r.None?
  {
    match c
    case '\U{0101}' => Some('a')  // ā
    case '\U{00E1}' => Some('a')  // á
    case '\U{01CE}' => Some('a')  // ǎ
    case '\U{00E0}' => Some('a')  // à
    case '\U{0113}' => Some('e')  // ē
    case '\U{00E9}' => Some('e')  // é
    case '\U{011B}' => Some('e')  // ě
    case '\U{00E8}' => Some('e')  // è
    case '\U{012B}' => Some('i')  // ī
    case '\U{00ED}' => Some('i')  // í
    case '\U{01D0}' => Some('i')  // ǐ
    case '\U{00EC}' => Some('i')  // ì
    case '\U{014D}' => Some('o')  // ō
    case '\U{00F3}' => Some('o')  // ó
    case '\U{01D2}' => Some('o')  // ǒ
    case '\U{00F2}' => Some('o')  // ò
    case '\U{016B}' => Some('u')  // ū
    case '\U{00FA}' => Some('u')  // ú
    case '\U{01D4}' => Some('u')  // ǔ
    case '\U{00F9}' => Some('u')  // ù
    case '\U{01D6}' => Some('v')  // ǖ
    case '\U{01D8}' => Some('v')  // ǘ
    case '\U{01DA}' => Some('v')  // ǚ
    case '\U{01DC}' => Some('v')  // ǜ
    case '\U{00FC}' => Some('v')  // ü
    case _ => None
  }

  /** Upper-case forms of the tone-marked vowels, mapped to their lower-case forms. */
  function LowerToneVowel(c: char): (r: Option<char>)
    ensures c < '\U{00C0}' ==> r.None?
  {
    match c
    case '\U{0100}' => Some('\U{0101}')
    case '\U{00C1}' => Some('\U{00E1}')
    case '\U{01CD}' => Some('\U{01CE}')
    case '\U{00C0}' => Some('\U{00E0}')
    case '\U{0112}' => Some('\U{0113}')
    case '\U{00C9}' => Some('\U{00E9}')
    case '\U{011A}' => Some('\U{011B}')
    case '\U{00C8}' => Some('\U{00E8}')
    case '\U{012A}' => Some('\U{012B}')
    case '\U{00CD}' => Some('\U{00ED}')
    case '\U{01CF}' => Some('\U{01D0}')
    case '\U{00CC}' => Some('\U{00EC}')
    case '\U{014C}' => Some('\U{014D}')
    case '\U{00D3}' => Some('\U{00F3}')
    case '\U{01D1}' => Some('\U{01D2}')
    case '\U{00D2}' => Some('\U{00F2}')
    case '\U{016A}' => Some('\U{016B}')
    case '\U{00DA}' => Some('\U{00FA}')
    case '\U{01D3}' => Some('\U{01D4}')
    case '\U{00D9}' => Some('\U{00F9}')
    case '\U{01D5}' => Some('\U{01D6}')
    case '\U{01D7}' => Some('\U{01D8}')
    case '\U{01D9}' => Some('\U{01DA}')
    case '\U{01DB}' => Some('\U{01DC}')
    case '\U{00DC}' => Some('\U{00FC}')
    case _ => None
  }

  predicate IsUpperAscii(c: char) { 'A' <= c <= 'Z' }

  predicate IsAsciiLetter(c: char) { 'A' <= c <= 'Z' || 'a' <= c <= 'z' }

  /** Lower-casing restricted to ASCII and the tone-marked vowels; any other
      character is returned unchanged. */
  function Lower(c: char): (r: char)
    ensures !IsUpperAscii(r) && LowerToneVowel(r).None?
    ensures IsAsciiLetter(c) <==> 'a' <= r <= 'z'
  {
    if IsUpperAscii(c) then (c as int + 32) as char
    else if LowerToneVowel(c).Some? then LowerToneVowel(c).value
    else c
  }

  /** Tone-marked vowels are already lower case. */
  lemma ToneVowelIsLower(c: char)
    requires ToneBase(c).Some?
    ensures Lower(c) == c
  {
  }

  /** `toLowerCase()` / `lower()` on a whole string, character by character. */
  function LowerString(s: string): (r: string)
    ensures |r| == |s| && forall i :: 0 <= i < |s| ==> r[i] == Lower(s[i])
  {
    if s == [] then [] else [Lower(s[0])] + LowerString(s[1..])
  }

  /** One character through the tone table: `toneMap[c] || c` / `tone_map.get(c, c)`. */
  function Untone(c: char): char {
    if ToneBase(c).Some? then ToneBase(c).value else c
  }

  /** The tone table applied to every character of a string. */
  function UntoneString(s: string): (r: string)
    ensures |r| == |s|
  {
    if s == [] then [] else [Untone(s[0])] + UntoneString(s[1..])
  }

  /** The per-character step: lower-case, then look up the tone table. */
  function StripChar(c: char): (r: char)
    ensures ToneBase(r).None? && Lower(r) == r
    ensures IsAsciiLetter(c) ==> r == Lower(c)
  {
    var l := Lower(c);
    if ToneBase(l).Some? then ToneBase(l).value else l
  }

  function StripToneMarks(text: string): (r: string)
    ensures |r| == |text|
    ensures forall i :: 0 <= i < |text| ==> r[i] == StripChar(text[i])
    ensures forall i :: 0 <= i < |r| ==> ToneBase(r[i]).None? && !IsUpperAscii(r[i])
  {
    if text == [] then [] else [StripChar(text[0])] + StripToneMarks(text[1..])
  }

  /** Normalisation is the whole-string order of the source: lower-case the
      text first, then send each character through the tone table. */
  lemma {:induction false} LowerThenUntone(text: string)
    ensures StripToneMarks(text) == UntoneString(LowerString(text))
  {
    if text != [] {
      LowerThenUntone(text[1..]);
      var low := LowerString(text);
      assert low == [Lower(text[0])] + LowerString(text[1..]);
      assert low[1..] == LowerString(text[1..]);
    }
  }

  /** A character already free of tone marks and capitals is left alone. */
  lemma StripCharFixed(c: char)
    requires ToneBase(c).None? && Lower(c) == c
    ensures StripChar(c) == c
  {
  }

  lemma LowerAsciiFixed(c: char)
    requires 'a' <= c <= 'z'
    ensures StripChar(c) == c
  {
    assert ToneBase(c).None?;
  }

  /** Normalising twice is normalising once. */
  lemma {:induction false} StripIdempotent(text: string)
    ensures StripToneMarks(StripToneMarks(text)) == StripToneMarks(text)
  {
    var once := StripToneMarks(text);
    var twice := StripToneMarks(once);
    forall i | 0 <= i < |text|
      ensures twice[i] == once[i]
    {
      StripCharFixed(once[i]);
    }
  }

  /** Typed answers consist of lower-case ASCII letters, which normalisation keeps. */
  lemma {:induction false} LowerAsciiUnchanged(s: string)
    requires forall i :: 0 <= i < |s| ==> 'a' <= s[i] <= 'z'
    ensures StripToneMarks(s) == s
  {
    var r := StripToneMarks(s);
    forall i | 0 <= i < |s|
      ensures r[i] == s[i]
    {
      LowerAsciiFixed(s[i]);
    }
  }

  /** Tone marks and case are erased: yī, YĪ and yi normalise alike. */
  lemma ToneAndCaseErased()
    ensures StripToneMarks("y\U{012B}") == "yi"
    ensures StripToneMarks("Y\U{012A}") == "yi"
    ensures StripToneMarks("n\U{01DA}") == "nv"
  {
    assert StripChar('y') == 'y';
    assert StripChar('Y') == 'y';
    assert StripChar('n') == 'n';
    assert StripChar('\U{012B}') == 'i';
    assert StripChar('\U{012A}') == 'i';
    assert StripChar('\U{01DA}') == 'v';
  }
}
