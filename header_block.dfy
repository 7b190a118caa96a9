/**
 * The shape both `parseHeaders` functions share: split the text on CRLF, turn each
 * line into at most one (name, value) pair, and write the pairs into a PHP array in order.
 * The clients differ only in how one line becomes a pair.
 */
module HeaderBlock {
  import opened Wrappers
  import opened PhpString
  import opened PhpArray

  /** The pairs `lineEntry` makes of `lines`, in line order; lines it skips contribute nothing. */
  function Entries(lines: seq<string>, lineEntry: string -> Option<(string, string)>): seq<(string, string)>
    decreases |lines|
  {
    if |lines| == 0 then []
    else
      var front := Entries(lines[..|lines| - 1], lineEntry);
      match lineEntry(lines[|lines| - 1])
      case None => front
      case Some(e) => front + [e]
  }

  /** A skipped line can be taken out of the line list without changing the pairs. */
  lemma {:induction false} EntriesSkip(
    a: seq<string>, line: string, b: seq<string>, lineEntry: string -> Option<(string, string)>)
    requires lineEntry(line).None?
    ensures Entries(a + [line] + b, lineEntry) == Entries(a + b, lineEntry)
    decreases |b|
  {
    if |b| == 0 {
      assert (a + [line] + b)[..|a|] == a;
      assert a + b == a;
    } else {
      var b' := b[..|b| - 1];
      EntriesSkip(a, line, b', lineEntry);
      assert (a + [line] + b)[..|a| + |b|] == a + [line] + b';
      assert (a + b)[..|a| + |b| - 1] == a + b';
    }
  }

  /** Every pair comes from some line, and a line that makes a pair contributes it. */
  lemma {:induction false} EntriesFromLines(lines: seq<string>, lineEntry: string -> Option<(string, string)>)
    ensures forall e :: e in Entries(lines, lineEntry) ==> exists i :: 0 <= i < |lines| && lineEntry(lines[i]) == Some(e)
    ensures forall i :: 0 <= i < |lines| && lineEntry(lines[i]).Some? ==> lineEntry(lines[i]).value in Entries(lines, lineEntry)
    decreases |lines|
  {
    if |lines| > 0 {
      var front := lines[..|lines| - 1];
      EntriesFromLines(front, lineEntry);
      forall e | e in Entries(lines, lineEntry)
        ensures exists i :: 0 <= i < |lines| && lineEntry(lines[i]) == Some(e)
      {
        if e in Entries(front, lineEntry) {
          var i :| 0 <= i < |front| && lineEntry(front[i]) == Some(e);
          assert lines[i] == front[i];
        } else {
          assert lineEntry(lines[|lines| - 1]) == Some(e);
        }
      }
      forall i | 0 <= i < |lines| && lineEntry(lines[i]).Some?
        ensures lineEntry(lines[i]).value in Entries(lines, lineEntry)
      {
        if i < |lines| - 1 {
          assert lines[i] == front[i];
        }
      }
    }
  }

  /**
   * Splitting a CRLF-terminated block of CRLF-free lines on CRLF and reading each line gives
   * the pairs of the lines themselves, when the empty piece after the last CRLF is skipped.
   */
  lemma EntriesOfBlock(lines: seq<string>, lineEntry: string -> Option<(string, string)>)
    requires forall i :: 0 <= i < |lines| ==> NoCrlf(lines[i])
    requires lineEntry([]).None?
    ensures Entries(Explode(CRLF, CrlfBlock(lines)), lineEntry) == Entries(lines, lineEntry)
  {
    ExplodeCrlfBlock(lines);
    assert (lines + [[]])[..|lines|] == lines;
  }

  /**
   * The array a `parseHeaders` loop returns, the pairs written into an empty array in line
   * order: a key reads the value of the last line carrying it, and there is one entry per
   * distinct key, in order of first appearance.
   */
  lemma LastLineWins(lines: seq<string>, lineEntry: string -> Option<(string, string)>, key: string)
    ensures Lookup(PutAll([], Entries(lines, lineEntry)), key) == LastValue(Entries(lines, lineEntry), key)
    ensures DistinctKeys(PutAll([], Entries(lines, lineEntry)))
    ensures KeysOf(PutAll([], Entries(lines, lineEntry))) == Dedup(KeysOf(Entries(lines, lineEntry)))
  {
    var es := Entries(lines, lineEntry);
    PutAllLookup(es, key);
    PutAllDistinctKeys(es);
    PutAllKeys(es);
  }

  /** Every entry of that array is the pair some line makes. */
  lemma ParsedFromLines(lines: seq<string>, lineEntry: string -> Option<(string, string)>)
    ensures forall p :: p in PutAll([], Entries(lines, lineEntry)) ==>
      exists i :: 0 <= i < |lines| && lineEntry(lines[i]) == Some(p)
  {
    EntriesFromLines(lines, lineEntry);
  }
}
