/**
 * Concrete results of `normalizeText` that follow from its misaligned table:
 * "É" gives "a" and "Ó" gives "i", not "e" and "o".
 *
 * Each case is evaluated on the one-pass reference `SinglePass`, in lemmas of its
 * own that never mention `Normalize`, and then carried over with `NormalizeIs`.
 */
module WorkedCases {
  import opened JsString
  import opened Utils
  import opened TableProperties
  import opened NormalizeProperties

  lemma {:induction false} WorkedEmpty()
    ensures Normalize("") == ""
  {
  }

  /**
   * The upper-case keys take the value written at their second occurrence: "É" gives
   * "a" and "Ó" gives "i", and "Á" is bound to the capital "U", which lowercasing turns
   * into "u". The small letters keep their own vowel.
   */
  lemma {:induction false} WorkedSingleCharacters()
    ensures Normalize("É") == "a" && Normalize("Ó") == "i" && Normalize("Á") == "u"
    ensures Normalize("é") == "e"
  {
    assert SinglePass(ExpectedTable, "É") == "a";
    assert SinglePass(ExpectedTable, "Ó") == "i";
    assert SinglePass(ExpectedTable, "Á") == "u";
    assert SinglePass(ExpectedTable, "é") == "e";
    NormalizeIs("É", "a");
    NormalizeIs("Ó", "i");
    NormalizeIs("Á", "u");
    NormalizeIs("é", "e");
  }

  /** The name example: the leading "Á" comes out as "u" (through the capital "U"), the "é" as "e". */
  lemma {:induction false} WorkedName()
    ensures Normalize("Ángel Pérez") == "ungelperez"
  {
    AngelImage();
    PerezImage();
    ImagesJoin("Ángel", "ungel", " Pérez", "perez", "Ángel Pérez", "ungelperez");
    NormalizeIs("Ángel Pérez", "ungelperez");
  }

  /** A result of the one-pass reference over the explicit table is the result of `normalizeText`. */
  lemma {:induction false} NormalizeIs(s: string, r: string)
    requires SinglePass(ExpectedTable, s) == r
    ensures Normalize(s) == r
  {
    NormalizeByChars(s);
  }

  lemma {:induction false} AngelImage()
    ensures SinglePass(ExpectedTable, "Ángel") == "ungel"
  {
  }

  lemma {:induction false} PerezImage()
    ensures SinglePass(ExpectedTable, " Pérez") == "perez"
  {
  }

  /** The image of a concatenation, from the images of its two parts. */
  lemma {:induction false} ImagesJoin(a: string, ra: string, b: string, rb: string, s: string, r: string)
    requires s == a + b && r == ra + rb
    requires SinglePass(ExpectedTable, a) == ra && SinglePass(ExpectedTable, b) == rb
    ensures SinglePass(ExpectedTable, s) == r
  {
    SinglePassConcat(ExpectedTable, a, b);
  }

  /** Capital and small ASCII letters give the same key. */
  lemma {:induction false} WorkedHola()
    ensures Normalize("HOLA") == "hola" && Normalize("hola") == "hola"
  {
    UpperHolaImage();
    LowerHolaImage();
    NormalizeIs("HOLA", "hola");
    NormalizeIs("hola", "hola");
  }

  lemma {:induction false} UpperHolaImage()
    ensures SinglePass(ExpectedTable, "HOLA") == "hola"
  {
  }

  lemma {:induction false} LowerHolaImage()
    ensures SinglePass(ExpectedTable, "hola") == "hola"
  {
  }

  /** Lowering "É" before normalizing changes the answer, since "é" and "É" have different entries. */
  lemma {:induction false} LoweringFirstDiffers()
    ensures Normalize(ToLowerCase("É")) == "e"
    ensures Normalize("É") == "a"
  {
    assert ToLowerCase("É") == "é";
    WorkedSingleCharacters();
  }
}
