/**
 * The PHP string built-ins the two cURL clients rely on, on `seq<char>`:
 * `explode`, `trim`, `substr`, `strpos` and `empty`.
 */
module PhpString {

  const CRLF: string := "\r\n"

  /** PHP's `empty()` on a string: true for "" and also for "0". */
  predicate PhpEmpty(s: string) {
    s == "" || s == "0"
  }

  /** The characters PHP's `trim()` strips by default: space, \t, \n, \r, NUL and vertical tab. */
  predicate IsTrimChar(c: char) {
    c == ' ' || c == '\t' || c == '\n' || c == '\r' || c == '\0' || c == '\U{000B}'
  }

  /** PHP's `strpos($s, $c)` for a single character: the first index of `c`, or |s| when absent. */
  function IndexOf(s: string, c: char): (i: nat)
    ensures i <= |s|
    ensures i < |s| <==> c in s
    ensures i < |s| ==> s[i] == c
    ensures forall j :: 0 <= j < i ==> s[j] != c
  {
    if |s| == 0 then 0
    else if s[0] == c then 0
    else 1 + IndexOf(s[1..], c)
  }

  /** A character other than `c` put in front shifts the first index of `c` by one. */
  lemma IndexOfCons(x: char, s: string, c: char)
    requires x != c
    ensures IndexOf([x] + s, c) == 1 + IndexOf(s, c)
  {
    assert ([x] + s)[1..] == s;
  }

  /** PHP's `explode($c, $s, 2)` when `$c` occurs in `$s`: the text before the first `c` and after it. */
  function SplitAtFirst(s: string, c: char): (parts: (string, string))
    requires c in s
    ensures parts.0 + [c] + parts.1 == s
    ensures c !in parts.0
  {
    var i := IndexOf(s, c);
    (s[..i], s[i + 1..])
  }

  /** Strips trim characters from the front (PHP's `ltrim`). */
  function TrimStart(s: string): (r: string)
    ensures |r| <= |s|
    ensures r == [] || !IsTrimChar(r[0])
  {
    if |s| > 0 && IsTrimChar(s[0]) then TrimStart(s[1..]) else s
  }

  /** Strips trim characters from the back (PHP's `rtrim`). */
  function TrimEnd(s: string): (r: string)
    ensures |r| <= |s|
    ensures r == [] || !IsTrimChar(r[|r| - 1])
    ensures r != [] ==> r[0] == s[0]
  {
    if |s| > 0 && IsTrimChar(s[|s| - 1]) then TrimEnd(s[..|s| - 1]) else s
  }

  /** PHP's `trim()`: no trim character is left at either end. */
  function Trim(s: string): (r: string)
    ensures |r| <= |s|
    ensures IsTrimmed(r)
  {
    TrimEnd(TrimStart(s))
  }

  /** `ltrim` removes a prefix made only of trim characters. */
  lemma {:induction false} TrimStartDropsPrefix(s: string)
    ensures TrimStart(s) == s[|s| - |TrimStart(s)|..]
    ensures forall i :: 0 <= i < |s| - |TrimStart(s)| ==> IsTrimChar(s[i])
  {
    if |s| > 0 && IsTrimChar(s[0]) {
      TrimStartDropsPrefix(s[1..]);
    }
  }

  /** `rtrim` removes a suffix made only of trim characters. */
  lemma {:induction false} TrimEndDropsSuffix(s: string)
    ensures TrimEnd(s) == s[..|TrimEnd(s)|]
    ensures forall i :: |TrimEnd(s)| <= i < |s| ==> IsTrimChar(s[i])
  {
    if |s| > 0 && IsTrimChar(s[|s| - 1]) {
      var front := s[..|s| - 1];
      TrimEndDropsSuffix(front);
      assert front[..|TrimEnd(s)|] == s[..|TrimEnd(s)|];
      forall i | |TrimEnd(s)| <= i < |s|
        ensures IsTrimChar(s[i])
      {
        if i < |s| - 1 {
          assert s[i] == front[i];
        }
      }
    }
  }

  /** How many characters `ltrim` removes from the front of `s`. */
  function LeadingTrim(s: string): nat {
    |s| - |TrimStart(s)|
  }

  /**
   * `trim` keeps a contiguous part of its input: everything before it and after it
   * is a trim character.
   */
  lemma TrimKeepsMiddle(s: string)
    ensures LeadingTrim(s) + |Trim(s)| <= |s|
    ensures Trim(s) == s[LeadingTrim(s)..LeadingTrim(s) + |Trim(s)|]
    ensures forall i :: 0 <= i < LeadingTrim(s) ==> IsTrimChar(s[i])
    ensures forall i :: LeadingTrim(s) + |Trim(s)| <= i < |s| ==> IsTrimChar(s[i])
  {
    var t := TrimStart(s);
    TrimStartDropsPrefix(s);
    TrimEndDropsSuffix(t);
    var a := |s| - |t|;
    var r := Trim(s);
    assert r == t[..|r|];
    assert r == s[a..a + |r|];
    forall i | a + |r| <= i < |s|
      ensures IsTrimChar(s[i])
    {
      assert s[i] == t[i - a];
    }
  }

  /** No trim character at either end. */
  predicate IsTrimmed(s: string) {
    s == [] || (!IsTrimChar(s[0]) && !IsTrimChar(s[|s| - 1]))
  }

  /** A string with no trim character at either end is left as it is. */
  lemma TrimKeeps(s: string)
    requires IsTrimmed(s)
    ensures Trim(s) == s
  {
  }

  /** Trimming twice is trimming once. */
  lemma TrimIdempotent(s: string)
    ensures Trim(Trim(s)) == Trim(s)
  {
    TrimKeeps(Trim(s));
  }

  /** A leading trim character never changes the result of `trim()`. */
  lemma {:induction false} TrimDropsLeading(c: char, s: string)
    requires IsTrimChar(c)
    ensures Trim([c] + s) == Trim(s)
  {
    assert ([c] + s)[1..] == s;
  }

  /** PHP's `substr($s, $start)` for a non-negative start (PHP 8: "" when start is past the end). */
  function SubstrFrom(s: string, start: nat): (r: string)
    ensures Prefix(s, start) + r == s
  {
    if start <= |s| then s[start..] else []
  }

  /** PHP's `substr($s, 0, $length)` for a non-negative length: the first min(length, |s|) characters. */
  function Prefix(s: string, length: nat): (r: string)
    ensures |r| == if length <= |s| then length else |s|
    ensures r <= s
  {
    if length <= |s| then s[..length] else s
  }

  /** `d` occurs in `s` at index `i`. */
  predicate MatchAt(s: string, d: string, i: int) {
    0 <= i && i + |d| <= |s| && s[i..i + |d|] == d
  }

  /** No CR is directly followed by LF in `s`. */
  predicate NoCrlf(s: string) {
    forall i :: 0 <= i < |s| - 1 ==> !(s[i] == '\r' && s[i + 1] == '\n')
  }

  /**
   * PHP's `explode($d, $s)` without a limit: the pieces between the occurrences of `d`,
   * found from left to right without overlap. There is always at least one piece.
   */
  function Explode(d: string, s: string): (pieces: seq<string>)
    requires d != []
    ensures |pieces| >= 1
    decreases |s|
  {
    if |s| < |d| then [s]
    else if s[..|d|] == d then [[]] + Explode(d, s[|d|..])
    else
      var rest := Explode(d, s[1..]);
      [[s[0]] + rest[0]] + rest[1..]
  }

  /** PHP's `implode($d, $pieces)`. */
  function Implode(d: string, pieces: seq<string>): string
    requires |pieces| >= 1
    decreases |pieces|
  {
    if |pieces| == 1 then pieces[0] else pieces[0] + d + Implode(d, pieces[1..])
  }

  lemma ImplodeConsChar(d: string, c: char, p: string, ps: seq<string>)
    ensures Implode(d, [[c] + p] + ps) == [c] + Implode(d, [p] + ps)
  {
    if |ps| > 0 {
      assert ([[c] + p] + ps)[1..] == ps;
      assert ([p] + ps)[1..] == ps;
    }
  }

  /** Exploding and gluing back together with the same delimiter gives the original string. */
  lemma {:induction false} ImplodeExplode(d: string, s: string)
    requires d != []
    ensures Implode(d, Explode(d, s)) == s
    decreases |s|
  {
    if |s| < |d| {
    } else if s[..|d|] == d {
      var rest := Explode(d, s[|d|..]);
      ImplodeExplode(d, s[|d|..]);
      assert ([[]] + rest)[1..] == rest;
      assert s == d + s[|d|..];
    } else {
      var rest := Explode(d, s[1..]);
      ImplodeExplode(d, s[1..]);
      assert [rest[0]] + rest[1..] == rest;
      ImplodeConsChar(d, s[0], rest[0], rest[1..]);
      assert s == [s[0]] + s[1..];
    }
  }

  /**
   * When `d` first occurs in `x + d` at index |x|, exploding `x + d + rest` cuts off exactly `x`.
   */
  lemma {:induction false} ExplodeCutsFirst(d: string, x: string, rest: string)
    requires d != []
    requires forall i :: 0 <= i < |x| ==> !MatchAt(x + d, d, i)
    ensures Explode(d, x + d + rest) == [x] + Explode(d, rest)
    decreases |x|
  {
    if |x| == 0 {
      var s := x + d + rest;
      assert s == d + rest;
      assert s[..|d|] == d && s[|d|..] == rest;
    } else {
      assert !MatchAt(x + d + rest, d, 0) by {
        assert !MatchAt(x + d, d, 0);
        assert (x + d + rest)[..|d|] == (x + d)[0..|d|];
      }
      assert forall i :: 0 <= i < |x[1..]| ==> !MatchAt(x[1..] + d, d, i) by {
        forall i | 0 <= i < |x[1..]|
          ensures !MatchAt(x[1..] + d, d, i)
        {
          assert !MatchAt(x + d, d, i + 1);
          assert x[1..] + d == (x + d)[1..];
          assert (x + d)[1..][i..i + |d|] == (x + d)[i + 1..i + 1 + |d|];
        }
      }
      ExplodeCutsFirst(d, x[1..], rest);
      ExplodeKeepsChar(d, x, rest);
    }
  }

  /** When `d` does not start `x + d + rest`, the first character of `x` joins the first piece of the rest. */
  lemma ExplodeKeepsChar(d: string, x: string, rest: string)
    requires d != [] && |x| > 0
    requires !MatchAt(x + d + rest, d, 0)
    requires Explode(d, x[1..] + d + rest) == [x[1..]] + Explode(d, rest)
    ensures Explode(d, x + d + rest) == [x] + Explode(d, rest)
  {
    var s := x + d + rest;
    assert s[1..] == x[1..] + d + rest;
    assert s[..|d|] != d;
    assert [s[0]] + x[1..] == x;
  }

  /** Exploding on a character that does not occur gives the whole string as the only piece. */
  lemma {:induction false} ExplodeCharAbsent(c: char, s: string)
    requires c !in s
    ensures Explode([c], s) == [s]
    decreases |s|
  {
    if |s| >= 1 {
      assert s[..1] == [s[0]];
      ExplodeCharAbsent(c, s[1..]);
      assert [s[0]] + s[1..] == s;
    }
  }

  /** A string is the text before index `i`, the character at `i` and the text after it. */
  lemma SplitAround(s: string, i: nat)
    requires i < |s|
    ensures s == s[..i] + [s[i]] + s[i + 1..]
  {
    assert s[i..] == [s[i]] + s[i + 1..];
    assert s == s[..i] + s[i..];
  }

  /** Exploding `x + [c] + rest` on `c` cuts off `x` when `c` does not occur in `x`. */
  lemma ExplodeCharCutsFirst(c: char, x: string, rest: string)
    requires c !in x
    ensures Explode([c], x + [c] + rest) == [x] + Explode([c], rest)
  {
    forall j | 0 <= j < |x|
      ensures !MatchAt(x + [c], [c], j)
    {
      assert (x + [c])[j..j + 1] == [x[j]];
    }
    ExplodeCutsFirst([c], x, rest);
  }

  /** Exploding on a character that occurs cuts at its first occurrence. */
  lemma ExplodeCharFirst(c: char, s: string)
    requires c in s
    ensures var i := IndexOf(s, c);
      Explode([c], s) == [s[..i]] + Explode([c], s[i + 1..])
  {
    var i := IndexOf(s, c);
    assert c !in s[..i];
    SplitAround(s, i);
    ExplodeCharCutsFirst(c, s[..i], s[i + 1..]);
  }

  /** The first piece of exploding on a character is the text before its first occurrence. */
  lemma ExplodeCharFirstPiece(c: char, s: string)
    ensures Explode([c], s)[0] == s[..IndexOf(s, c)]
  {
    if c in s {
      ExplodeCharFirst(c, s);
    } else {
      ExplodeCharAbsent(c, s);
    }
  }

  /** The text of `lines`, each followed by CRLF, the way a header block is laid out on the wire. */
  function CrlfBlock(lines: seq<string>): string
  {
    if lines == [] then [] else lines[0] + CRLF + CrlfBlock(lines[1..])
  }

  /** If a line holds no CRLF, CRLF first occurs in `line + CRLF` right after the line. */
  lemma CrlfFirstAfter(line: string)
    requires NoCrlf(line)
    ensures forall i :: 0 <= i < |line| ==> !MatchAt(line + CRLF, CRLF, i)
  {
    forall i | 0 <= i < |line|
      ensures !MatchAt(line + CRLF, CRLF, i)
    {
      if i < |line| - 1 {
        assert (line + CRLF)[i..i + 2] == [line[i], line[i + 1]];
      } else {
        assert (line + CRLF)[i..i + 2] == [line[i], '\r'];
      }
    }
  }

  /**
   * Splitting a CRLF-terminated block of CRLF-free lines on CRLF gives back the lines,
   * followed by the empty piece after the last terminator.
   */
  lemma {:induction false} ExplodeCrlfBlock(lines: seq<string>)
    requires forall i :: 0 <= i < |lines| ==> NoCrlf(lines[i])
    ensures Explode(CRLF, CrlfBlock(lines)) == lines + [[]]
  {
    if lines != [] {
      CrlfFirstAfter(lines[0]);
      ExplodeCutsFirst(CRLF, lines[0], CrlfBlock(lines[1..]));
      ExplodeCrlfBlock(lines[1..]);
      assert lines == [lines[0]] + lines[1..];
    }
  }
}
