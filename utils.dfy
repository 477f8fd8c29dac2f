/**
 * `normalizeText` of src/app/components/utils/Utils.tsx: rejects a value that is
 * not a string, builds a character table from two parallel strings, and turns the
 * input into a comparison key by removing whitespace, substituting through the
 * table and lowercasing.
 */
module Utils {
  import opened Wrappers
  import opened JsString

  /** A JavaScript argument, as far as `typeof input !== "string"` can tell. */
  datatype Value = Str(s: string) | NonString

  datatype Error = TypeError(message: string)

  const TypeErrorMessage: string := "Input must be a string"

  /** The keys, and the values at the same positions. `From` has 15 characters, `To` 16. */
  const From: string := "séíóúáÉÍÓÚÁÉÍÓÚ"
  const To: string := "seiouaAEIOUaeiou"

  /** The `Map<string, string>` the loop fills; every key and value is one character. */
  type Table = map<char, char>

  /**
   * `mapping.set(from[i], to[i])`. Past the end of `to`, `to[i]` is `undefined`,
   * which the later `mapping.get(c) || c` treats exactly like a missing key.
   */
  function SetEntry(m: Table, from: string, to: string, i: nat): Table
    requires i < |from|
  {
    if i < |to| then m[from[i] := to[i]] else m - {from[i]}
  }

  /** The table after the first `n` iterations of the loop. */
  function TableAfter(from: string, to: string, n: nat): Table
    requires n <= |from|
  {
    if n == 0 then map[] else SetEntry(TableAfter(from, to, n - 1), from, to, n - 1)
  }

  /** The table once the loop over all of `from` has finished. */
  function BuiltTable(from: string, to: string): Table {
    TableAfter(from, to, |from|)
  }

  /** The table `normalizeText` builds on every call. */
  function SourceTable(): Table {
    BuiltTable(From, To)
  }

  /** The loop `for (let i = 0; i < from.length; i++) mapping.set(from[i], to[i])`. */
  method BuildTable(from: string, to: string) returns (mapping: Table)
    ensures mapping == BuiltTable(from, to)
  {
    mapping := map[];
    var i := 0;
    while i < |from|
      invariant 0 <= i <= |from|
      invariant mapping == TableAfter(from, to, i)
    {
      if i < |to| {
        mapping := mapping[from[i] := to[i]];
      } else {
        mapping := mapping - {from[i]};
      }
      i := i + 1;
    }
  }

  /**
   * `mapping.get(c) || c`. A value in the table is a one-character string, which
   * is never falsy, so `||` falls back to `c` only when the key is missing.
   */
  function GetOrSelf(m: Table, c: char): char {
    if c in m then m[c] else c
  }

  /** `.replace(/\s+/g, "")`: every run of whitespace, hence every whitespace character, goes. */
  function RemoveWhitespace(s: string): string {
    if s == [] then []
    else if IsWhitespace(s[0]) then RemoveWhitespace(s[1..])
    else [s[0]] + RemoveWhitespace(s[1..])
  }

  /** `.split("").map((char) => mapping.get(char) || char).join("")`. */
  function Substitute(m: Table, s: string): string {
    if s == [] then [] else [GetOrSelf(m, s[0])] + Substitute(m, s[1..])
  }

  /** The whole pipeline, over a given table. */
  function NormalizeWith(m: Table, s: string): string {
    ToLowerCase(Substitute(m, RemoveWhitespace(s)))
  }

  /** What `normalizeText` returns for a string argument. */
  function Normalize(s: string): string {
    NormalizeWith(SourceTable(), s)
  }

  /** `normalizeText(input)`: a TypeError for a non-string, the normalized text otherwise. */
  method NormalizeText(input: Value) returns (r: Result<string, Error>)
    ensures input.NonString? <==> r == Failure(TypeError(TypeErrorMessage))
    ensures input.Str? ==> r == Success(Normalize(input.s))
  {
    if !input.Str? {
      return Failure(TypeError(TypeErrorMessage));
    }
    var mapping := BuildTable(From, To);
    r := Success(NormalizeWith(mapping, input.s));
  }
}
