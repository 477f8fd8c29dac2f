/**
 * Properties of the per-call pipeline of `normalizeText`: remove whitespace,
 * substitute through the table, lowercase.
 */
module NormalizeProperties {
  import opened JsString
  import opened Utils
  import opened TableProperties

  /** What one input character becomes: nothing if it is whitespace, else its entry (or itself) lowered. */
  function CharImage(m: Table, c: char): string {
    if IsWhitespace(c) then [] else [ToLowerChar(GetOrSelf(m, c))]
  }

  /** A one-pass reference: the images of the characters, in order. */
  function SinglePass(m: Table, s: string): string {
    if s == [] then [] else CharImage(m, s[0]) + SinglePass(m, s[1..])
  }

  /** The three-stage pipeline equals the one-pass reference, for every table. */
  lemma {:induction false} PipelineIsSinglePass(m: Table, s: string)
    ensures NormalizeWith(m, s) == SinglePass(m, s)
  {
    if s != [] {
      PipelineIsSinglePass(m, s[1..]);
      if !IsWhitespace(s[0]) {
        var rest := RemoveWhitespace(s[1..]);
        assert RemoveWhitespace(s) == [s[0]] + rest;
        assert Substitute(m, [s[0]] + rest)[1..] == Substitute(m, rest);
        assert ToLowerCase(Substitute(m, [s[0]] + rest))[1..] == ToLowerCase(Substitute(m, rest));
      }
    }
  }

  /** Whitespace removal leaves no whitespace, and leaves text without whitespace as it is. */
  lemma {:induction false} RemoveWhitespaceClean(s: string)
    ensures forall i :: 0 <= i < |RemoveWhitespace(s)| ==> !IsWhitespace(RemoveWhitespace(s)[i])
    ensures (forall i :: 0 <= i < |s| ==> !IsWhitespace(s[i])) ==> RemoveWhitespace(s) == s
    ensures |RemoveWhitespace(s)| <= |s|
  {
    if s != [] {
      RemoveWhitespaceClean(s[1..]);
      if forall i :: 0 <= i < |s| ==> !IsWhitespace(s[i]) {
        assert forall i :: 0 <= i < |s[1..]| ==> !IsWhitespace(s[1..][i]) by {
          forall i | 0 <= i < |s[1..]| ensures !IsWhitespace(s[1..][i]) {
            assert s[1..][i] == s[i + 1];
          }
        }
      }
    }
  }

  /** Whitespace removal distributes over concatenation, so it keeps the order of what it keeps. */
  lemma {:induction false} RemoveWhitespaceConcat(a: string, b: string)
    ensures RemoveWhitespace(a + b) == RemoveWhitespace(a) + RemoveWhitespace(b)
  {
    if a != [] {
      assert (a + b)[1..] == a[1..] + b;
      RemoveWhitespaceConcat(a[1..], b);
    } else {
      assert a + b == b;
    }
  }

  /** Whitespace removal keeps every other character as often as it occurs. */
  lemma {:induction false} RemoveWhitespaceKeeps(s: string)
    ensures forall c :: IsWhitespace(c) ==> multiset(RemoveWhitespace(s))[c] == 0
    ensures forall c :: !IsWhitespace(c) ==> multiset(RemoveWhitespace(s))[c] == multiset(s)[c]
  {
    if s != [] {
      RemoveWhitespaceKeeps(s[1..]);
      assert s == [s[0]] + s[1..];
    }
  }

  /** Substitution keeps the length and replaces each character in place by its entry, or keeps it. */
  lemma {:induction false} SubstituteAt(m: Table, s: string)
    ensures |Substitute(m, s)| == |s|
    ensures forall i :: 0 <= i < |s| ==> Substitute(m, s)[i] == GetOrSelf(m, s[i])
  {
    if s != [] {
      SubstituteAt(m, s[1..]);
    }
  }

  /**
   * The output lists the input's non-whitespace characters in their order, each
   * passed through the table (or kept) and then lowered.
   */
  lemma {:induction false} NormalizeAt(s: string)
    ensures |Normalize(s)| == |RemoveWhitespace(s)|
    ensures forall i :: 0 <= i < |Normalize(s)| ==>
              Normalize(s)[i] == ToLowerChar(GetOrSelf(SourceTable(), RemoveWhitespace(s)[i]))
  {
    SubstituteAt(SourceTable(), RemoveWhitespace(s));
    ToLowerCaseAt(Substitute(SourceTable(), RemoveWhitespace(s)));
  }

  /** The output is never longer than the input, and as long when the input has no whitespace. */
  lemma {:induction false} OutputLength(s: string)
    ensures |Normalize(s)| <= |s|
    ensures (forall i :: 0 <= i < |s| ==> !IsWhitespace(s[i])) ==> |Normalize(s)| == |s|
  {
    NormalizeAt(s);
    RemoveWhitespaceClean(s);
  }

  /**
   * The output holds no whitespace and no capital letter, ASCII ones included, and
   * no table key except the self-mapped `s`.
   */
  lemma {:induction false} OutputShape(s: string)
    ensures forall i :: 0 <= i < |Normalize(s)| ==> !IsWhitespace(Normalize(s)[i])
    ensures forall i :: 0 <= i < |Normalize(s)| ==> !IsUpper(Normalize(s)[i]) && !IsAsciiUpper(Normalize(s)[i])
    ensures forall i :: 0 <= i < |Normalize(s)| && Normalize(s)[i] in SourceTable() ==> Normalize(s)[i] == 's'
  {
    SourceTableContents();
    NormalizeAt(s);
    RemoveWhitespaceClean(s);
    var w := RemoveWhitespace(s);
    forall i | 0 <= i < |Normalize(s)| && Normalize(s)[i] in SourceTable()
      ensures Normalize(s)[i] == 's'
    {
      OutputCharIsFixed(w[i]);
    }
  }

  /** A character outside the table's keys passes the substitution step unchanged. */
  lemma {:induction false} SubstituteOutsideKeys(m: Table, s: string)
    requires forall i :: 0 <= i < |s| ==> s[i] !in m
    ensures Substitute(m, s) == s
  {
    if s != [] {
      SubstituteOutsideKeys(m, s[1..]);
    }
  }

  /** Text with no whitespace and no table key is only lowercased. */
  lemma {:induction false} PlainTextOnlyLowercased(s: string)
    requires forall i :: 0 <= i < |s| ==> !IsWhitespace(s[i]) && s[i] !in SourceTable()
    ensures Normalize(s) == ToLowerCase(s)
  {
    SubstituteOutsideKeys(SourceTable(), s);
    RemoveWhitespaceClean(s);
  }

  /**
   * One character of the output is left as it is by a second pass: it is not
   * whitespace, and substituting then lowering it changes nothing.
   */
  lemma {:induction false} OutputCharIsFixed(x: char)
    requires !IsWhitespace(x)
    ensures !IsWhitespace(ToLowerChar(GetOrSelf(SourceTable(), x)))
    ensures var y := ToLowerChar(GetOrSelf(SourceTable(), x));
            ToLowerChar(GetOrSelf(SourceTable(), y)) == y
    ensures var y := ToLowerChar(GetOrSelf(SourceTable(), x));
            y in SourceTable() ==> y == 's'
  {
    SourceTableContents();
  }

  lemma {:induction false} SinglePassFixes(t: string)
    requires forall i :: 0 <= i < |t| ==> !IsWhitespace(t[i])
    requires forall i :: 0 <= i < |t| ==> ToLowerChar(GetOrSelf(SourceTable(), t[i])) == t[i]
    ensures SinglePass(SourceTable(), t) == t
  {
    if t != [] {
      SinglePassFixes(t[1..]);
    }
  }

  /** Normalizing the output of `normalizeText` returns it unchanged. */
  lemma {:induction false} Idempotent(s: string)
    ensures Normalize(Normalize(s)) == Normalize(s)
  {
    var w := RemoveWhitespace(s);
    var t := Normalize(s);
    NormalizeAt(s);
    RemoveWhitespaceClean(s);
    forall i | 0 <= i < |t|
      ensures !IsWhitespace(t[i]) && ToLowerChar(GetOrSelf(SourceTable(), t[i])) == t[i]
    {
      assert t[i] == ToLowerChar(GetOrSelf(SourceTable(), w[i]));
      OutputCharIsFixed(w[i]);
    }
    SinglePassFixes(t);
    PipelineIsSinglePass(SourceTable(), t);
  }

  /**
   * Lowering the input first gives the same result unless the input holds one of
   * the upper-case keys, whose entries differ from those of their small letters.
   */
  lemma {:induction false} CaseInsensitiveOutsideCapitalKeys(s: string)
    requires forall i :: 0 <= i < |s| ==> !(IsUpper(s[i]) && s[i] in ExpectedTable)
    ensures Normalize(ToLowerCase(s)) == Normalize(s)
  {
    NormalizeByChars(s);
    NormalizeByChars(ToLowerCase(s));
    SinglePassLowered(s);
  }

  lemma {:induction false} SinglePassLowered(s: string)
    requires forall i :: 0 <= i < |s| ==> !(IsUpper(s[i]) && s[i] in ExpectedTable)
    ensures SinglePass(ExpectedTable, ToLowerCase(s)) == SinglePass(ExpectedTable, s)
  {
    if s != [] {
      SinglePassLowered(s[1..]);
      LoweredCharImage(s[0]);
      assert ToLowerCase(s)[0] == ToLowerChar(s[0]) && ToLowerCase(s)[1..] == ToLowerCase(s[1..]);
    }
  }

  /** Lowering a character first changes its image only if it is one of the upper-case keys. */
  lemma {:induction false} LoweredCharImage(c: char)
    requires !(IsUpper(c) && c in ExpectedTable)
    ensures CharImage(ExpectedTable, ToLowerChar(c)) == CharImage(ExpectedTable, c)
  {
  }

  lemma {:induction false} SinglePassConcat(m: Table, a: string, b: string)
    ensures SinglePass(m, a + b) == SinglePass(m, a) + SinglePass(m, b)
  {
    if a != [] {
      assert (a + b)[1..] == a[1..] + b;
      SinglePassConcat(m, a[1..], b);
    } else {
      assert a + b == b;
    }
  }

  /** Normalizing a concatenation normalizes each part: no character's image depends on its neighbours. */
  lemma {:induction false} NormalizeConcat(a: string, b: string)
    ensures Normalize(a + b) == Normalize(a) + Normalize(b)
  {
    PipelineIsSinglePass(SourceTable(), a + b);
    PipelineIsSinglePass(SourceTable(), a);
    PipelineIsSinglePass(SourceTable(), b);
    SinglePassConcat(SourceTable(), a, b);
  }

  /** Normalizes `s` one character at a time, through the explicit table. */
  lemma {:induction false} NormalizeByChars(s: string)
    ensures Normalize(s) == SinglePass(ExpectedTable, s)
  {
    SourceTableContents();
    PipelineIsSinglePass(SourceTable(), s);
  }
}
