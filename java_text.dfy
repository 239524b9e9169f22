/**
 * The java.lang.String operations the repackaging code relies on, with Java's
 * semantics: startsWith, endsWith, indexOf, trim, replace(char, char), and
 * split on a one-character literal separator (trailing empty strings dropped,
 * the empty string giving one empty piece).
 */
module JavaText {

  predicate StartsWith(s: string, prefix: string) {
    |prefix| <= |s| && s[..|prefix|] == prefix
  }

  predicate EndsWith(s: string, suffix: string) {
    |suffix| <= |s| && s[|s| - |suffix|..] == suffix
  }

  /** `pattern` occurs in `s` at index `j`. */
  predicate OccursAt(s: string, pattern: string, j: int) {
    0 <= j && j + |pattern| <= |s| && s[j..j + |pattern|] == pattern
  }

  /** String.indexOf(pattern, from): the first occurrence at or after `from`, or -1. */
  function IndexFrom(s: string, pattern: string, from: nat): (r: int)
    ensures r == -1 || (from <= r && OccursAt(s, pattern, r))
    ensures r == -1 ==> forall j :: from <= j ==> !OccursAt(s, pattern, j)
    ensures r >= 0 ==> forall j :: from <= j < r ==> !OccursAt(s, pattern, j)
    decreases |s| - from
  {
    if from + |pattern| > |s| then -1
    else if s[from..from + |pattern|] == pattern then from
    else IndexFrom(s, pattern, from + 1)
  }

  /** String.indexOf(pattern). */
  function IndexOf(s: string, pattern: string): (r: int)
    ensures r == -1 || OccursAt(s, pattern, r)
    ensures r == -1 <==> forall j :: !OccursAt(s, pattern, j)
    ensures r >= 0 ==> forall j :: 0 <= j < r ==> !OccursAt(s, pattern, j)
  {
    IndexFrom(s, pattern, 0)
  }

  predicate Contains(s: string, pattern: string) {
    IndexOf(s, pattern) >= 0
  }

  /** A pattern whose first character is absent from the prefix of `s` before `n` cannot start there. */
  lemma NoOccurrenceBefore(s: string, pattern: string, n: int)
    requires |pattern| > 0 && 0 <= n <= |s|
    requires forall j :: 0 <= j < n ==> s[j] != pattern[0]
    ensures forall j :: 0 <= j < n ==> !OccursAt(s, pattern, j)
  {
    forall j | 0 <= j < n
      ensures !OccursAt(s, pattern, j)
    {
      if j + |pattern| <= |s| {
        assert s[j..j + |pattern|][0] == s[j];
      }
    }
  }

  /** The first occurrence of `pattern` in `x + pattern + y` is at |x| when x has no pattern[0]. */
  lemma IndexOfAfterPlainPrefix(x: string, pattern: string, y: string)
    requires |pattern| > 0 && pattern[0] !in x
    ensures IndexOf(x + pattern + y, pattern) == |x|
  {
    var s := x + pattern + y;
    assert s[|x|..|x| + |pattern|] == pattern;
    assert OccursAt(s, pattern, |x|);
    forall j | 0 <= j < |x| ensures s[j] != pattern[0] {
      assert s[j] == x[j];
    }
    NoOccurrenceBefore(s, pattern, |x|);
  }

  // ---------------------------------------------------------------- split

  /** All the pieces of `s` between occurrences of `sep`, empty ones included. */
  function Pieces(s: string, sep: char): (r: seq<string>)
    ensures |r| > 0
    ensures forall i :: 0 <= i < |r| ==> sep !in r[i]
  {
    if s == [] then [""]
    else if s[0] == sep then [""] + Pieces(s[1..], sep)
    else
      var rest := Pieces(s[1..], sep);
      [[s[0]] + rest[0]] + rest[1..]
  }

  /** What String.split does after splitting when the limit is zero: drop trailing empty strings. */
  function DropTrailingEmpty(ps: seq<string>): (r: seq<string>)
    ensures |r| <= |ps| && r == ps[..|r|]
    ensures |r| > 0 ==> r[|r| - 1] != ""
    ensures forall i :: |r| <= i < |ps| ==> ps[i] == ""
  {
    if |ps| > 0 && ps[|ps| - 1] == "" then DropTrailingEmpty(ps[..|ps| - 1]) else ps
  }

  /** String.split(sep) for a separator that is one literal character. */
  function Split(s: string, sep: char): (r: seq<string>)
    ensures forall i :: 0 <= i < |r| ==> sep !in r[i]
  {
    if sep !in s then [s] else DropTrailingEmpty(Pieces(s, sep))
  }

  lemma {:induction false} PiecesPlain(s: string, sep: char)
    requires sep !in s
    ensures Pieces(s, sep) == [s]
  {
    if s != [] {
      PiecesPlain(s[1..], sep);
      assert [s[0]] + s[1..] == s;
    }
  }

  /** Pieces distributes over one separator. */
  lemma {:induction false} PiecesJoin(x: string, sep: char, y: string)
    ensures Pieces(x + [sep] + y, sep) == Pieces(x, sep) + Pieces(y, sep)
  {
    var s := x + [sep] + y;
    if x == [] {
      assert s == [sep] + y;
      assert s[1..] == y;
    } else {
      assert s[0] == x[0] && s[1..] == x[1..] + [sep] + y;
      PiecesJoin(x[1..], sep, y);
      PiecesStep(s, sep);
      PiecesStep(x, sep);
      ConsJoin(x[0], Pieces(x[1..], sep), Pieces(y, sep));
    }
  }

  /** One step of Pieces, on the first character. */
  lemma PiecesStep(s: string, sep: char)
    requires s != []
    ensures var tail := Pieces(s[1..], sep);
      Pieces(s, sep) == if s[0] == sep then [""] + tail else [[s[0]] + tail[0]] + tail[1..]
  {
  }

  /** Prefixing the first piece commutes with appending further pieces. */
  lemma ConsJoin(c: char, a: seq<string>, b: seq<string>)
    requires a != []
    ensures [[c] + (a + b)[0]] + (a + b)[1..] == ([[c] + a[0]] + a[1..]) + b
    ensures [""] + (a + b) == ([""] + a) + b
  {
    assert (a + b)[0] == a[0];
    assert (a + b)[1..] == a[1..] + b;
  }

  /** Every piece up to the last non-empty one survives DropTrailingEmpty. */
  lemma {:induction false} DropTrailingKeeps(ps: seq<string>, i: int)
    requires 0 <= i < |ps| && ps[i] != ""
    ensures i < |DropTrailingEmpty(ps)|
  {
  }

  /** "x<sep>y<sep>z" splits into x, y and z, whenever z is non-empty. */
  lemma SplitThree(x: string, sep: char, y: string, z: string)
    requires sep !in x && sep !in y && sep !in z && z != ""
    ensures Split(x + [sep] + y + [sep] + z, sep) == [x, y, z]
  {
    var s := x + [sep] + y + [sep] + z;
    assert sep in s by { assert s[|x|] == sep; }
    assert s == (x + [sep] + y) + [sep] + z;
    PiecesJoin(x + [sep] + y, sep, z);
    PiecesJoin(x, sep, y);
    PiecesPlain(x, sep);
    PiecesPlain(y, sep);
    PiecesPlain(z, sep);
    assert Pieces(s, sep) == [x, y, z];
    DropTrailingKeeps([x, y, z], 2);
  }

  /** "x<sep>y..." splits into x and y first, whenever y is non-empty. */
  lemma SplitFirstTwo(x: string, sep: char, y: string, rest: string)
    requires sep !in x && sep !in y && y != ""
    requires rest == [] || rest[0] == sep
    ensures var r := Split(x + [sep] + y + rest, sep); |r| >= 2 && r[0] == x && r[1] == y
    ensures rest == [] ==> Split(x + [sep] + y + rest, sep) == [x, y]
  {
    var s := x + [sep] + y + rest;
    assert sep in s by { assert s[|x|] == sep; }
    PiecesPlain(x, sep);
    PiecesPlain(y, sep);
    var ps := Pieces(s, sep);
    if rest == [] {
      assert s == x + [sep] + y;
      PiecesJoin(x, sep, y);
      assert ps == [x, y];
    } else {
      assert s == x + [sep] + (y + [sep] + rest[1..]);
      PiecesJoin(x, sep, y + [sep] + rest[1..]);
      PiecesJoin(y, sep, rest[1..]);
      assert ps[0] == x && ps[1] == y;
    }
    DropTrailingKeeps(ps, 1);
  }

  /** "x" with no separator and "x<sep>" both split into the single piece x. */
  lemma SplitOnePiece(x: string, sep: char, trailing: bool)
    requires sep !in x
    ensures Split(if trailing then x + [sep] else x, sep) == [x] || (x == [] && trailing)
    ensures x != [] ==> Split(if trailing then x + [sep] else x, sep) == [x]
    ensures |Split(if trailing then x + [sep] else x, sep)| <= 1
  {
    if trailing {
      var s := x + [sep];
      assert sep in s by { assert s[|x|] == sep; }
      assert s == x + [sep] + [];
      PiecesJoin(x, sep, []);
      PiecesPlain(x, sep);
      assert Pieces(s, sep) == [x, ""];
      assert DropTrailingEmpty([x, ""]) == DropTrailingEmpty([x]);
      if x == [] {
        assert DropTrailingEmpty([x]) == DropTrailingEmpty([]);
      }
    }
  }

  /** "...<sep>d<sep>f" with f non-empty splits into pieces ending with d and f. */
  lemma SplitLastTwo(prefix: string, sep: char, d: string, f: string)
    requires sep !in d && sep !in f && f != ""
    ensures var r := Split(prefix + [sep] + d + [sep] + f, sep);
      |r| >= 2 && r[|r| - 2] == d && r[|r| - 1] == f
  {
    var s := prefix + [sep] + d + [sep] + f;
    assert sep in s by { assert s[|prefix|] == sep; }
    assert s == prefix + [sep] + (d + [sep] + f);
    PiecesJoin(prefix, sep, d + [sep] + f);
    PiecesJoin(d, sep, f);
    PiecesPlain(d, sep);
    PiecesPlain(f, sep);
    var ps := Pieces(s, sep);
    assert ps == Pieces(prefix, sep) + [d, f];
    DropTrailingKeeps(ps, |ps| - 1);
  }

  // ---------------------------------------------------------------- other operations

  /** Java's whitespace test in String.trim: every character up to U+0020. */
  predicate IsTrimmed(c: char) { c <= ' ' }

  function TrimStart(s: string): (r: string)
    ensures |r| <= |s| && r == s[|s| - |r|..]
    ensures r == [] || !IsTrimmed(r[0])
  {
    if s != [] && IsTrimmed(s[0]) then TrimStart(s[1..]) else s
  }

  function TrimEnd(s: string): (r: string)
    ensures |r| <= |s| && r == s[..|r|]
    ensures r == [] || !IsTrimmed(r[|r| - 1])
  {
    if s != [] && IsTrimmed(s[|s| - 1]) then TrimEnd(s[..|s| - 1]) else s
  }

  /** String.trim: a contiguous part of `s` without leading or trailing spaces or controls. */
  function Trim(s: string): (r: string)
    ensures r == [] || (!IsTrimmed(r[0]) && !IsTrimmed(r[|r| - 1]))
    ensures |s| - |TrimStart(s)| + |r| <= |s|
    ensures r == s[|s| - |TrimStart(s)|..|s| - |TrimStart(s)| + |r|]
  {
    var t := TrimStart(s);
    var r := TrimEnd(t);
    assert t == s[|s| - |t|..];
    assert r == t[..|r|];
    r
  }

  /** String.trim leaves a string alone when it neither starts nor ends with a space or control. */
  lemma TrimmedAlready(s: string)
    requires s == [] || (!IsTrimmed(s[0]) && !IsTrimmed(s[|s| - 1]))
    ensures Trim(s) == s
  {
  }

  /** Trimming twice is trimming once. */
  lemma TrimIdempotent(s: string)
    ensures Trim(Trim(s)) == Trim(s)
  {
    TrimmedAlready(Trim(s));
  }

  /** String.replace(from, to) on characters. */
  function Replace(s: string, from: char, to: char): (r: string)
    ensures |r| == |s|
    ensures forall i :: 0 <= i < |s| ==> r[i] == if s[i] == from then to else s[i]
  {
    if s == [] then [] else [if s[0] == from then to else s[0]] + Replace(s[1..], from, to)
  }

  /** Java's equalsIgnoreCase against "true", as Boolean.parseBoolean uses it (ASCII letters). */
  predicate ParseBoolean(s: string) {
    |s| == 4 && s[0] in "tT" && s[1] in "rR" && s[2] in "uU" && s[3] in "eE"
  }

  // ---------------------------------------------------------------- bytes

  newtype byte = x: int | 0 <= x < 256

  /** UTF-8 encoding of one Unicode scalar value. */
  function EncodeChar(c: char): (r: seq<byte>)
    ensures 1 <= |r| <= 4
  {
    var n := c as int;
    if n < 0x80 then [n as byte]
    else if n < 0x800 then [(0xC0 + n / 64) as byte, (0x80 + n % 64) as byte]
    else if n < 0x10000 then
      [(0xE0 + n / 4096) as byte, (0x80 + (n / 64) % 64) as byte, (0x80 + n % 64) as byte]
    else
      [(0xF0 + n / 262144) as byte, (0x80 + (n / 4096) % 64) as byte,
       (0x80 + (n / 64) % 64) as byte, (0x80 + n % 64) as byte]
  }

  /** The bytes a UTF-8 writer produces for `s`. */
  function Utf8(s: string): (r: seq<byte>)
    ensures |s| <= |r| <= 4 * |s|
  {
    if s == [] then [] else EncodeChar(s[0]) + Utf8(s[1..])
  }
}
