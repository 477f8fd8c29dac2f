/**
 * What the table-building loop of `normalizeText` produces: the last write to a key
 * wins, the character of `to` past the end of `from` is never read, and for the
 * source's two strings the result is a fixed eleven-entry table.
 */
module TableProperties {
  import opened Utils

  /** `j` is the last position before `n` at which `from` holds `c`. */
  predicate IsLastIndex(from: string, n: nat, c: char, j: nat) {
    j < n <= |from| && from[j] == c && forall k :: j < k < n ==> from[k] != c
  }

  /** After `n` iterations the entry for `c` is the one written at its last occurrence. */
  lemma {:induction false} LastWriteWins(from: string, to: string, n: nat, c: char, j: nat)
    requires IsLastIndex(from, n, c, j)
    ensures c in TableAfter(from, to, n) <==> j < |to|
    ensures j < |to| ==> TableAfter(from, to, n)[c] == to[j]
  {
    if j < n - 1 {
      LastWriteWins(from, to, n - 1, c, j);
    }
  }

  /** A character that does not occur among the first `n` of `from` is not a key. */
  lemma {:induction false} OnlyWrittenKeys(from: string, to: string, n: nat, c: char)
    requires n <= |from|
    requires forall k :: 0 <= k < n ==> from[k] != c
    ensures c !in TableAfter(from, to, n)
  {
    if n > 0 {
      OnlyWrittenKeys(from, to, n - 1, c);
    }
  }

  /** The loop reads `to` only at positions below `|from|`. */
  lemma {:induction false} UnreadTail(from: string, to: string, to': string, n: nat)
    requires n <= |from| && n <= |to| && n <= |to'|
    requires to[..n] == to'[..n]
    ensures TableAfter(from, to, n) == TableAfter(from, to', n)
  {
    if n > 0 {
      assert to[..n - 1] == to[..n][..n - 1] && to'[..n - 1] == to'[..n][..n - 1];
      assert to[n - 1] == to[..n][n - 1] && to'[n - 1] == to'[..n][n - 1];
      UnreadTail(from, to, to', n - 1);
    }
  }

  /** The source's `to` is one character longer than `from`, and that last character does not matter. */
  lemma {:induction false} SixteenthCharacterUnread(x: char)
    ensures |From| == 15 && |To| == 16
    ensures BuiltTable(From, To[..15] + [x]) == SourceTable()
  {
    assert (To[..15] + [x])[..15] == To[..15];
    UnreadTail(From, To[..15] + [x], To, 15);
  }

  /** The table the source builds, with the upper-case keys bound to their second write. */
  const ExpectedTable: Table := map[
    's' := 's', 'é' := 'e', 'í' := 'i', 'ó' := 'o', 'ú' := 'u', 'á' := 'a',
    'É' := 'a', 'Í' := 'e', 'Ó' := 'i', 'Ú' := 'o', 'Á' := 'U']

  lemma {:induction false} SourceTableContents()
    ensures SourceTable() == ExpectedTable
  {
    forall c
      ensures (c in SourceTable()) == (c in ExpectedTable)
      ensures c in ExpectedTable ==> SourceTable()[c] == ExpectedTable[c]
    {
      var last := LastIndexInFrom(c);
      if last < 0 {
        OnlyWrittenKeys(From, To, 15, c);
      } else {
        LastWriteWins(From, To, 15, c, last);
      }
    }
  }

  /** The last position of `c` in `From`, or -1 if there is none. */
  function LastIndexInFrom(c: char): (j: int)
    ensures j < 0 ==> forall k :: 0 <= k < |From| ==> From[k] != c
    ensures 0 <= j ==> IsLastIndex(From, |From|, c, j)
    ensures 0 <= j <==> c in ExpectedTable
    ensures 0 <= j ==> j < |To| && To[j] == ExpectedTable[c]
  {
    if c == 's' then 0
    else if c == 'é' then 1
    else if c == 'í' then 2
    else if c == 'ó' then 3
    else if c == 'ú' then 4
    else if c == 'á' then 5
    else if c == 'Á' then 10
    else if c == 'É' then 11
    else if c == 'Í' then 12
    else if c == 'Ó' then 13
    else if c == 'Ú' then 14
    else -1
  }
}
