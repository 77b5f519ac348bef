/** The pieces of the Java and JavaScript string libraries that the modelled code
    relies on, written out over `seq<char>`: `String.trim`, `String.split(" ")`,
    `String.toLowerCase` and `equalsIgnoreCase` (ASCII letters only),
    `String.startsWith`, `indexOf`, the cells a float parser reads once trimmed, and
    `String.valueOf(int)` with its inverse. */
module JavaStrings {
  import opened Wrappers
  import opened Sequences

  // ---------------------------------------------------------------- trim

  /** `String.trim` removes every leading and trailing character whose code is at most U+0020. */
  predicate IsTrimmed(c: char) {
    c <= ' '
  }

  function TrimStart(s: string): string {
    if s != [] && IsTrimmed(s[0]) then TrimStart(s[1..]) else s
  }

  /** `TrimStart` keeps a suffix that does not start with a trimmed character, and what it
      removes is made of trimmed characters only. */
  lemma {:induction false} TrimStartShape(s: string)
    ensures var r := TrimStart(s);
      && |r| <= |s| && r == s[|s| - |r|..]
      && (r != [] ==> !IsTrimmed(r[0]))
      && forall i :: 0 <= i < |s| - |r| ==> IsTrimmed(s[i])
  {
    if s != [] && IsTrimmed(s[0]) {
      TrimStartShape(s[1..]);
      assert forall i :: 1 <= i < |s| ==> s[i] == s[1..][i - 1];
    }
  }

  function TrimEnd(s: string): string {
    if s != [] && IsTrimmed(s[|s| - 1]) then TrimEnd(s[..|s| - 1]) else s
  }

  /** `TrimEnd` keeps a prefix that does not end with a trimmed character, and what it
      removes is made of trimmed characters only. */
  lemma {:induction false} TrimEndShape(s: string)
    ensures var r := TrimEnd(s);
      && |r| <= |s| && r == s[..|r|]
      && (r != [] ==> !IsTrimmed(r[|r| - 1]))
      && forall i :: |r| <= i < |s| ==> IsTrimmed(s[i])
  {
    if s != [] && IsTrimmed(s[|s| - 1]) {
      TrimEndShape(s[..|s| - 1]);
      assert forall i :: 0 <= i < |s| - 1 ==> s[i] == s[..|s| - 1][i];
    }
  }

  /** Java's `s.trim()`. */
  function Trim(s: string): string {
    TrimEnd(TrimStart(s))
  }

  /** The trimmed string is a slice of `s` that neither starts nor ends with a trimmed
      character. */
  lemma TrimShape(s: string)
    ensures var r, a := Trim(s), |s| - |TrimStart(s)|;
      && 0 <= a && a + |r| <= |s| && r == s[a..a + |r|]
      && (r != [] ==> !IsTrimmed(r[0]) && !IsTrimmed(r[|r| - 1]))
  {
    TrimStartShape(s);
    TrimEndShape(TrimStart(s));
  }

  /** Java's `s.trim().isEmpty()`. */
  predicate IsBlank(s: string) {
    Trim(s) == []
  }

  /** A string trims to nothing exactly when all of its characters are trimmed ones. */
  lemma BlankIff(s: string)
    ensures IsBlank(s) <==> forall i :: 0 <= i < |s| ==> IsTrimmed(s[i])
  {
    var t := TrimStart(s);
    TrimStartShape(s);
    TrimEndShape(t);
    if IsBlank(s) {
      assert TrimEnd(t) == [];
    } else {
      var r := Trim(s);
      assert r != [] && !IsTrimmed(r[0]);
      assert r[0] == t[0] == s[|s| - |t|];
    }
  }

  /** A string whose first character is not a trimmed one is not blank. */
  lemma NotBlankIfFirst(s: string)
    requires s != [] && !IsTrimmed(s[0])
    ensures !IsBlank(s)
  {
    BlankIff(s);
  }

  /** Trimming keeps a string that has no surrounding blanks. */
  lemma TrimKeepsInner(s: string)
    requires s != [] && !IsTrimmed(s[0]) && !IsTrimmed(s[|s| - 1])
    ensures Trim(s) == s
  {
  }

  // ---------------------------------------------------------------- case

  /** `Character.toLowerCase` restricted to ASCII letters. */
  function ToLowerChar(c: char): (r: char)
    ensures 'A' <= c <= 'Z' ==> 'a' <= r <= 'z'
    ensures !('A' <= c <= 'Z') ==> r == c
  {
    if 'A' <= c <= 'Z' then (c as int + 32) as char else c
  }

  /** Java's `s.toLowerCase()` on ASCII letters: character by character. */
  function ToLower(s: string): (r: string)
    ensures |r| == |s|
  {
    seq(|s|, i requires 0 <= i < |s| => ToLowerChar(s[i]))
  }

  /** Each character of the lower-cased string is its own character lower-cased. */
  lemma ToLowerChars(s: string)
    ensures forall i :: 0 <= i < |s| ==> ToLower(s)[i] == ToLowerChar(s[i])
  {
  }

  /** Java's `a.equalsIgnoreCase(b)` on ASCII letters. */
  predicate EqualsIgnoreCase(a: string, b: string) {
    ToLower(a) == ToLower(b)
  }

  /** `equalsIgnoreCase` accepts every capitalisation of the word. */
  lemma EqualsIgnoreCaseExample()
    ensures EqualsIgnoreCase("AVERAGE", "average") && EqualsIgnoreCase("Mean", "mean")
    ensures !EqualsIgnoreCase("average", "averages")
  {
    assert ToLower("AVERAGE") == "average";
    assert ToLower("Mean") == "mean";
    assert |ToLower("averages")| == 8;
  }

  // ---------------------------------------------------------------- prefix and search

  /** Java's `s.startsWith(prefix)`. */
  predicate StartsWith(s: string, prefix: string) {
    |prefix| <= |s| && s[..|prefix|] == prefix
  }

  /** `sub` occurs in `s` at position `i`. */
  predicate OccursAt(s: string, sub: string, i: int) {
    0 <= i && i + |sub| <= |s| && s[i..i + |sub|] == sub
  }

  /** A one-character string occurs exactly where that character is. */
  lemma OccursAtChar(s: string, ch: char, i: int)
    ensures OccursAt(s, [ch], i) <==> 0 <= i < |s| && s[i] == ch
  {
    if 0 <= i < |s| {
      assert s[i..i + 1] == [s[i]];
    }
  }

  /** JavaScript's `s.indexOf(sub, from)`, for a start position inside the string:
      the first position at or after `from` where `sub` occurs, or -1. */
  function IndexOf(s: string, sub: string, from: nat): (r: int)
    requires from <= |s|
    ensures r == -1 || (from <= r && OccursAt(s, sub, r))
    ensures r == -1 ==> forall i :: from <= i ==> !OccursAt(s, sub, i)
    ensures r != -1 ==> forall i :: from <= i < r ==> !OccursAt(s, sub, i)
    decreases |s| - from
  {
    if from + |sub| > |s| then -1
    else if s[from..from + |sub|] == sub then from
    else IndexOf(s, sub, from + 1)
  }

  /** A string does not occur where its first character does not. */
  lemma NotOccursAt(s: string, sub: string, i: int)
    requires 0 <= i < |s| && sub != [] && s[i] != sub[0]
    ensures !OccursAt(s, sub, i)
  {
    if i + |sub| <= |s| {
      assert s[i..i + |sub|][0] == s[i];
    }
  }

  /** `indexOf` from `from` finds `sub` at `k` when it occurs there and nowhere before. */
  lemma {:induction false} IndexOfFirst(s: string, sub: string, from: nat, k: nat)
    requires from <= k && OccursAt(s, sub, k)
    requires forall j :: from <= j < k ==> !OccursAt(s, sub, j)
    ensures IndexOf(s, sub, from) == k
    decreases k - from
  {
    if from < k {
      assert !OccursAt(s, sub, from);
      IndexOfFirst(s, sub, from + 1, k);
    }
  }

  /** The first occurrence of a character from `from` on is found by `indexOf`. */
  lemma {:induction false} IndexOfChar(s: string, ch: char, from: nat, k: nat)
    requires from <= k < |s| && s[k] == ch
    requires forall j :: from <= j < k ==> s[j] != ch
    ensures IndexOf(s, [ch], from) == k
    decreases k - from
  {
    OccursAtChar(s, ch, from);
    if from < k {
      IndexOfChar(s, ch, from + 1, k);
    }
  }

  // ---------------------------------------------------------------- split(" ")

  /** The pieces between single spaces, including empty ones: `|Pieces(s)|` is one more
      than the number of spaces in `s`. */
  function Pieces(s: string): (r: seq<string>)
    ensures |r| >= 1
  {
    if s == [] then [""]
    else if s[0] == ' ' then [""] + Pieces(s[1..])
    else
      var rest := Pieces(s[1..]);
      [[s[0]] + rest[0]] + rest[1..]
  }

  /** No piece holds a space. */
  lemma {:induction false} PiecesHaveNoSpace(s: string)
    ensures forall k :: 0 <= k < |Pieces(s)| ==> ' ' !in Pieces(s)[k]
  {
    if s != [] {
      PiecesHaveNoSpace(s[1..]);
      var rest := Pieces(s[1..]);
      if s[0] != ' ' {
        assert ' ' !in [s[0]] + rest[0];
        assert forall k :: 1 <= k < |Pieces(s)| ==> Pieces(s)[k] == rest[k];
      } else {
        assert forall k :: 1 <= k < |Pieces(s)| ==> Pieces(s)[k] == rest[k - 1];
      }
    }
  }

  /** The inverse of `Pieces`: the pieces glued back with single spaces. */
  function JoinWithSpaces(ps: seq<string>): string
    requires |ps| >= 1
  {
    if |ps| == 1 then ps[0] else ps[0] + " " + JoinWithSpaces(ps[1..])
  }

  /** Cutting at the spaces loses nothing. */
  lemma {:induction false} JoinPieces(s: string)
    ensures JoinWithSpaces(Pieces(s)) == s
  {
    if s == [] {
    } else if s[0] == ' ' {
      JoinPieces(s[1..]);
      assert Pieces(s)[1..] == Pieces(s[1..]);
    } else {
      JoinPieces(s[1..]);
      var rest := Pieces(s[1..]);
      if |rest| == 1 {
        assert JoinWithSpaces(Pieces(s)) == [s[0]] + rest[0];
      } else {
        assert Pieces(s)[1..] == rest[1..];
        assert JoinWithSpaces(rest) == rest[0] + " " + JoinWithSpaces(rest[1..]);
      }
      assert [s[0]] + s[1..] == s;
    }
  }

  /** Drops the empty strings at the end, as `split` does with a zero limit. */
  function DropTrailingEmpty(ps: seq<string>): (r: seq<string>)
    ensures |r| <= |ps| && r == ps[..|r|]
    ensures r != [] ==> r[|r| - 1] != ""
  {
    if ps != [] && ps[|ps| - 1] == "" then DropTrailingEmpty(ps[..|ps| - 1]) else ps
  }

  /** What is dropped is empty strings only. */
  lemma {:induction false} DropTrailingEmptyDropsEmpty(ps: seq<string>)
    ensures var r := DropTrailingEmpty(ps); forall k :: |r| <= k < |ps| ==> ps[k] == ""
  {
    if ps != [] && ps[|ps| - 1] == "" {
      DropTrailingEmptyDropsEmpty(ps[..|ps| - 1]);
    }
  }

  /** Java's `s.split(" ")`: a string without a space is returned whole; otherwise the
      pieces between spaces, leading empty pieces kept and trailing empty pieces dropped. */
  function Split(s: string): (r: seq<string>)
    ensures ' ' !in s ==> r == [s]
  {
    if ' ' !in s then [s] else DropTrailingEmpty(Pieces(s))
  }

  /** No piece of a split holds a space. */
  lemma SplitHasNoSpace(s: string)
    ensures forall k :: 0 <= k < |Split(s)| ==> ' ' !in Split(s)[k]
  {
    PiecesHaveNoSpace(s);
  }

  /** The pieces of a two-word name. */
  lemma SplitTwoWords(a: string, b: string)
    requires a != [] && b != [] && ' ' !in a && ' ' !in b
    ensures Split(a + " " + b) == [a, b]
  {
    PiecesNoSpace(b);
    assert (" " + b)[0] == ' ' && (" " + b)[1..] == b;
    assert Pieces(" " + b) == ["", b];
    PiecesThroughWord(a, " " + b);
    assert a + " " + b == a + (" " + b);
    assert a + "" == a;
    assert Pieces(a + " " + b) == [a, b];
    assert ' ' in a + " " + b by { assert (a + " " + b)[|a|] == ' '; }
  }

  lemma PiecesNoSpace(s: string)
    requires ' ' !in s
    ensures Pieces(s) == [s]
  {
    if s != [] {
      PiecesNoSpace(s[1..]);
      assert [s[0]] + s[1..] == s;
    }
  }

  /** A word without spaces in front of `t` is glued to the first piece of `t`. */
  lemma {:induction false} PiecesThroughWord(a: string, t: string)
    requires ' ' !in a
    ensures Pieces(a + t) == [a + Pieces(t)[0]] + Pieces(t)[1..]
  {
    var p := Pieces(t);
    if a != [] {
      var u := a + t;
      assert u[0] == a[0] && a[0] != ' ';
      assert u[1..] == a[1..] + t;
      PiecesThroughWord(a[1..], t);
      var rest := Pieces(a[1..] + t);
      assert Pieces(u) == [[a[0]] + rest[0]] + rest[1..];
      assert rest[0] == a[1..] + p[0] && rest[1..] == p[1..];
      assert [a[0]] + (a[1..] + p[0]) == a + p[0];
    } else {
      assert a + t == t && a + p[0] == p[0];
      assert p == [p[0]] + p[1..];
    }
  }

  // ---------------------------------------------------------------- cells that parse

  /** A cell that `Float.parseFloat(cell.trim())` reads, `parse` standing for the parser:
      it is not blank and its trimmed text parses. */
  predicate Parses(cell: string, parse: string -> Option<real>) {
    !IsBlank(cell) && parse(Trim(cell)).Some?
  }

  /** The positions of the cells that parse, from left to right. */
  function ParsedIndices(cells: seq<string>, parse: string -> Option<real>): (idx: seq<nat>)
    ensures forall k :: 0 <= k < |idx| ==> idx[k] < |cells|
  {
    KeptIndices(cells, c => Parses(c, parse))
  }

  /** `ParsedIndices` lists, in increasing order, exactly the positions whose cell parses. */
  lemma ParsedIndicesExactly(cells: seq<string>, parse: string -> Option<real>)
    ensures var idx := ParsedIndices(cells, parse);
      && (forall k, l :: 0 <= k < l < |idx| ==> idx[k] < idx[l])
      && (forall j :: 0 <= j < |cells| ==> (j in idx <==> Parses(cells[j], parse)))
  {
    KeptIndicesExactly(cells, c => Parses(c, parse));
  }

  // ---------------------------------------------------------------- valueOf(int)

  function DigitChar(d: nat): (c: char)
    requires d < 10
    ensures '0' <= c <= '9'
  {
    (48 + d) as char
  }

  predicate IsDigit(c: char) {
    '0' <= c <= '9'
  }

  function DigitValue(c: char): (d: nat)
    requires IsDigit(c)
    ensures d < 10 && DigitChar(d) == c
  {
    c as int - 48
  }

  /** The decimal digits of `n`, most significant first, without leading zeros. */
  function NatToString(n: nat): (r: string)
    ensures |r| >= 1
    ensures forall i :: 0 <= i < |r| ==> IsDigit(r[i])
    decreases n
  {
    if n < 10 then [DigitChar(n)] else NatToString(n / 10) + [DigitChar(n % 10)]
  }

  /** Java's `String.valueOf(int)` (and the `int` case of string concatenation). */
  function IntToString(n: int): (r: string)
    ensures |r| >= 1
  {
    if n < 0 then "-" + NatToString(-n) else NatToString(n)
  }

  /** The inverse of `NatToString`: reads a non-empty string of decimal digits. */
  function ParseNat(s: string): nat
    requires forall i :: 0 <= i < |s| ==> IsDigit(s[i])
  {
    if s == [] then 0 else ParseNat(s[..|s| - 1]) * 10 + DigitValue(s[|s| - 1])
  }

  /** The inverse of `IntToString`. */
  function ParseInt(s: string): int
    requires s != [] && (s[0] == '-' || IsDigit(s[0]))
    requires forall i :: 1 <= i < |s| ==> IsDigit(s[i])
  {
    if s[0] == '-' then 0 - ParseNat(s[1..]) else ParseNat(s)
  }

  lemma {:induction false} ParseNatToString(n: nat)
    ensures ParseNat(NatToString(n)) == n
    decreases n
  {
    if n >= 10 {
      var s := NatToString(n);
      assert s[..|s| - 1] == NatToString(n / 10);
      ParseNatToString(n / 10);
    }
  }

  /** Reading back the decimal form of an integer gives the integer. */
  lemma ParseIntToString(n: int)
    ensures ParseInt(IntToString(n)) == n
  {
    var s := IntToString(n);
    if n < 0 {
      assert s[1..] == NatToString(-n);
      ParseNatToString(-n);
    } else {
      ParseNatToString(n);
    }
  }

  /** Different integers are printed differently. */
  lemma IntToStringInjective(a: int, b: int)
    requires IntToString(a) == IntToString(b)
    ensures a == b
  {
    ParseIntToString(a);
    ParseIntToString(b);
  }
}
