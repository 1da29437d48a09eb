/** The rows the table model shows and the filter it applies to them
    (filefinder.py: the entry tuples, `internalGetFilepath`, the match test of
    `filterMoreRows` and the word list built by `setFilter`). */
module Entries {
  import opened PyStrings

  /** One file found under a root: `(name, dirpath, size, mtime)`. */
  datatype Row = Row(name: string, dirpath: string, size: int, mtime: int)

  /** The four table columns, in header order: Name, Path, Size, Date. */
  datatype Column = Name | Path | Size | Date

  datatype SortOrder = Ascending | Descending

  const Sep: char := '/'

  /** `os.path.join(a, b)` for two parts (POSIX rules). */
  function PathJoin(a: string, b: string): string {
    if b != [] && b[0] == Sep then b
    else if a == [] || a[|a| - 1] == Sep then a + b
    else a + [Sep] + b
  }

  /** The joined path always ends with `b`; a relative `b` is appended to `a`,
      with one separator in between unless `a` is empty or already ends in one. */
  lemma PathJoinParts(a: string, b: string)
    ensures var r := PathJoin(a, b);
      && |b| <= |r| && r[|r| - |b|..] == b
      && ((b == [] || b[0] != Sep) ==> a <= r)
      && ((b == [] || b[0] != Sep) && a != [] && a[|a| - 1] != Sep ==> r == a + [Sep] + b)
      && ((b == [] || b[0] != Sep) && (a == [] || a[|a| - 1] == Sep) ==> r == a + b)
  {
  }

  /** `internalGetFilepath`: the full path of a row. */
  function FilePath(row: Row): string {
    PathJoin(row.dirpath, row.name)
  }

  /** The test `filterMoreRows` applies to each scanned row: no filter words,
      or every word occurs in the lower-cased full path. */
  function Matches(row: Row, words: seq<string>): (b: bool)
    ensures b <==> |words| == 0 || forall w :: w in words ==> Contains(Lower(FilePath(row)), w)
  {
    AllOccurEach(Lower(FilePath(row)), words);
    |words| == 0 || AllOccur(Lower(FilePath(row)), words)
  }

  /** `all([w in hay for w in words])` */
  predicate AllOccur(hay: string, words: seq<string>) {
    words == [] || (Contains(hay, words[0]) && AllOccur(hay, words[1..]))
  }

  /** `AllOccur` holds exactly when each of the words occurs. */
  lemma {:induction false} AllOccurEach(hay: string, words: seq<string>)
    ensures AllOccur(hay, words) <==> forall w :: w in words ==> Contains(hay, w)
  {
    if words != [] {
      AllOccurEach(hay, words[1..]);
      assert words[0] in words;
      assert forall w :: w in words[1..] ==> w in words;
      assert forall w :: w in words && w != words[0] ==> w in words[1..];
    }
  }

  /** `Matches` for a fixed word list, as the test the scan cursor applies. */
  function RowFilter(words: seq<string>): Row -> bool {
    row => Matches(row, words)
  }

  /** `filter.lower().split()`, the word list `setFilter` stores. */
  function FilterWords(filter: string): (words: seq<string>)
    ensures forall w :: w in words ==> WellFormedWord(w)
  {
    var low := Lower(filter);
    LowerSpec(filter);
    var words := Split(low);
    SplitChars(low);
    assert forall w :: w in words ==> NoUpper(w) by {
      forall w, i | w in words && 0 <= i < |w| ensures !IsUpper(w[i]) {
        var j :| 0 <= j < |low| && low[j] == w[i];
      }
    }
    words
  }

  predicate WellFormedWord(w: string) {
    w != [] && SpaceFree(w) && NoUpper(w)
  }

  lemma {:induction false} JoinSpacedNoUpper(words: seq<string>)
    requires forall w :: w in words ==> NoUpper(w)
    ensures NoUpper(JoinSpaced(words))
  {
    if |words| == 1 {
      assert Concat(words) == words[0] + Concat([]);
      assert words[0] + [] == words[0];
    } else if |words| > 1 {
      assert forall v :: v in words[1..] ==> v in words;
      JoinSpacedNoUpper(words[1..]);
      var s := words[0] + [' '] + JoinSpaced(words[1..]);
      forall i | 0 <= i < |s| ensures !IsUpper(s[i]) {
        if i < |words[0]| {
          assert words[0] in words;
          assert s[i] == words[0][i];
        } else if i > |words[0]| {
          assert s[i] == JoinSpaced(words[1..])[i - |words[0]| - 1];
        } else {
          assert s[i] == ' ';
        }
      }
    }
  }

  /** Typing a filter back in as the words it was read as gives the same words. */
  lemma FilterWordsOfJoin(words: seq<string>)
    requires forall w :: w in words ==> WellFormedWord(w)
    ensures FilterWords(JoinSpaced(words)) == words
  {
    var s := JoinSpaced(words);
    JoinSpacedNoUpper(words);
    LowerOfNoUpper(s);
    SplitJoinSpaced(words);
  }

  /** Lengthening the filter only narrows it: if every old word is part of some
      new word, every row the new words let through the old words let through. */
  lemma RefinedFilterNarrows(row: Row, coarse: seq<string>, fine: seq<string>)
    requires forall w :: w in coarse ==> exists v :: v in fine && Contains(v, w)
    requires Matches(row, fine)
    ensures Matches(row, coarse)
  {
    var p := Lower(FilePath(row));
    AllOccurEach(p, fine);
    AllOccurEach(p, coarse);
    forall w | w in coarse ensures Contains(p, w) {
      var v :| v in fine && Contains(v, w);
      ContainsTransitive(p, v, w);
    }
  }
}
