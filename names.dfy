/**
  `normalize_name`: names are compared after NFKD decomposition, dropping what is not
  ASCII, lowering the case and stripping surrounding whitespace.
*/
module Names {
  import opened Text

  predicate IsAscii(s: string) {
    forall k :: 0 <= k < |s| ==> s[k] as int < 0x80
  }

  /** No letter `A`..`Z`. */
  predicate NoUpper(s: string) {
    forall k :: 0 <= k < |s| ==> !('A' <= s[k] <= 'Z')
  }

  /**
    What survives of one character after NFKD decomposition followed by
    `encode('ascii', 'ignore')`. The table covers ASCII and the Latin-1 Supplement
    (U+00A0..U+00FF): accented letters keep their base letter, the compatibility
    characters keep their ASCII part, and everything else disappears.
  */
  function AsciiResidue(c: char): (r: string)
    ensures IsAscii(r)
  {
    var n := c as int;
    if n < 0x80 then [c]
    else if n == 0xA0 || n == 0xA8 || n == 0xAF || n == 0xB4 || n == 0xB8 then " "
    else if n == 0xAA then "a"
    else if n == 0xB2 then "2"
    else if n == 0xB3 then "3"
    else if n == 0xB9 then "1"
    else if n == 0xBA then "o"
    else if n == 0xBC then "14"
    else if n == 0xBD then "12"
    else if n == 0xBE then "34"
    else if 0xC0 <= n <= 0xC5 then "A"
    else if n == 0xC7 then "C"
    else if 0xC8 <= n <= 0xCB then "E"
    else if 0xCC <= n <= 0xCF then "I"
    else if n == 0xD1 then "N"
    else if 0xD2 <= n <= 0xD6 then "O"
    else if 0xD9 <= n <= 0xDC then "U"
    else if n == 0xDD then "Y"
    else if 0xE0 <= n <= 0xE5 then "a"
    else if n == 0xE7 then "c"
    else if 0xE8 <= n <= 0xEB then "e"
    else if 0xEC <= n <= 0xEF then "i"
    else if n == 0xF1 then "n"
    else if 0xF2 <= n <= 0xF6 then "o"
    else if 0xF9 <= n <= 0xFC then "u"
    else if n == 0xFD || n == 0xFF then "y"
    else []
  }

  /** `unicodedata.normalize('NFKD', s).encode('ascii', 'ignore').decode('ascii')`. */
  function AsciiFold(s: string): (r: string)
    ensures IsAscii(r)
  {
    if s == [] then [] else AsciiResidue(s[0]) + AsciiFold(s[1..])
  }

  /** Python's `lower()` on ASCII text, which is all it is applied to here. */
  function LowerAscii(s: string): (r: string)
  {
    seq(|s|, k requires 0 <= k < |s| => if 'A' <= s[k] <= 'Z' then (s[k] as int + 32) as char else s[k])
  }

  /** `normalize_name`. */
  function NormalizeName(name: string): string {
    Strip(LowerAscii(AsciiFold(name)))
  }

  /** The fold is character by character, so it distributes over concatenation. */
  lemma {:induction false} AsciiFoldAppend(a: string, b: string)
    ensures AsciiFold(a + b) == AsciiFold(a) + AsciiFold(b)
  {
    if a != [] {
      assert (a + b)[1..] == a[1..] + b;
      AsciiFoldAppend(a[1..], b);
    } else {
      assert a + b == b;
    }
  }

  /** On ASCII text the decomposition step changes nothing. */
  lemma {:induction false} AsciiFoldOfAscii(s: string)
    requires IsAscii(s)
    ensures AsciiFold(s) == s
  {
    if s != [] {
      AsciiFoldOfAscii(s[1..]);
    }
  }

  /** A normalised name is ASCII, has no upper-case letter and no surrounding whitespace. */
  lemma NormalizeNameShape(name: string)
    ensures IsAscii(NormalizeName(name))
    ensures NoUpper(NormalizeName(name))
    ensures IsStripped(NormalizeName(name))
  {
    var lowered := LowerAscii(AsciiFold(name));
    LowerAsciiShape(AsciiFold(name));
    var i, j := StripSpan(lowered);
    SliceShape(lowered, i, j);
  }

  /** Lowering ASCII text leaves ASCII text without upper-case letters. */
  lemma LowerAsciiShape(s: string)
    requires IsAscii(s)
    ensures IsAscii(LowerAscii(s)) && NoUpper(LowerAscii(s))
  {
  }

  lemma SliceShape(s: string, i: nat, j: nat)
    requires i <= j <= |s| && IsAscii(s) && NoUpper(s)
    ensures IsAscii(s[i..j]) && NoUpper(s[i..j])
  {
    forall k | 0 <= k < j - i ensures s[i..j][k] == s[i + k] {}
  }

  /** Lowering text that has no upper-case letter changes nothing. */
  lemma LowerAsciiNoUpper(s: string)
    requires NoUpper(s)
    ensures LowerAscii(s) == s
  {
  }

  /** Lowering is character by character, so it distributes over concatenation. */
  lemma LowerAsciiAppend(a: string, b: string)
    ensures LowerAscii(a + b) == LowerAscii(a) + LowerAscii(b)
  {
  }

  /** Normalising twice is normalising once. */
  lemma NormalizeNameIdempotent(name: string)
    ensures NormalizeName(NormalizeName(name)) == NormalizeName(name)
  {
    var r := NormalizeName(name);
    NormalizeNameShape(name);
    AsciiFoldOfAscii(r);
    LowerAsciiNoUpper(r);
    StripStripped(r);
  }

  /** What one character contributes to a normalised name, before the final strip. */
  function FoldKey(c: char): string {
    LowerAscii(AsciiResidue(c))
  }

  /** Folding and lowering a string is folding and lowering its characters one by one. */
  lemma {:induction false} LowerFoldByChar(s: string)
    ensures s != [] ==> LowerAscii(AsciiFold(s)) == FoldKey(s[0]) + LowerAscii(AsciiFold(s[1..]))
  {
    if s != [] {
      LowerAsciiAppend(AsciiResidue(s[0]), AsciiFold(s[1..]));
    }
  }

  /**
    Two names whose characters agree one by one up to accents and case normalise to the
    same string.
  */
  lemma {:induction false} NormalizeNamePointwise(s: string, t: string)
    requires |s| == |t|
    requires forall k :: 0 <= k < |s| ==> FoldKey(s[k]) == FoldKey(t[k])
    ensures NormalizeName(s) == NormalizeName(t)
  {
    FoldPointwise(s, t);
  }

  lemma {:induction false} FoldPointwise(s: string, t: string)
    requires |s| == |t|
    requires forall k :: 0 <= k < |s| ==> FoldKey(s[k]) == FoldKey(t[k])
    ensures LowerAscii(AsciiFold(s)) == LowerAscii(AsciiFold(t))
  {
    if s != [] {
      LowerFoldByChar(s);
      LowerFoldByChar(t);
      assert FoldKey(s[0]) == FoldKey(t[0]);
      FoldPointwise(s[1..], t[1..]);
    }
  }

  /** Accents and case do not matter: "José Álvarez" and "jose alvarez" compare equal. */
  lemma NormalizeNameIgnoresAccents()
    ensures NormalizeName("José Álvarez") == NormalizeName("jose alvarez")
  {
    var s, t := "José Álvarez", "jose alvarez";
    forall k | 0 <= k < |s| ensures FoldKey(s[k]) == FoldKey(t[k]) {
      if k == 0 {
        assert FoldKey('J') == FoldKey('j') == "j";
      } else if k == 3 {
        assert FoldKey('é') == FoldKey('e') == "e";
      } else if k == 5 {
        assert FoldKey('Á') == FoldKey('a') == "a";
      } else {
        assert s[k] == t[k];
      }
    }
    NormalizeNamePointwise(s, t);
  }
}
