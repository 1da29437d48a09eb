/** The three Python 2 unicode-string builtins the table model relies on:
    `s.lower()`, `s.split()` (no separator argument) and `needle in hay`. */
module PyStrings {

  /** Whitespace as Python 2's unicode `split()` sees it (Py_UNICODE_ISSPACE). */
  predicate IsSpace(c: char) {
    || ('\t' <= c <= '\r')                // tab, line feed, vertical tab, form feed, carriage return
    || ('\U{1C}' <= c <= '\U{1F}')         // file, group, record and unit separators
    || c == ' ' || c == '\U{85}' || c == '\U{A0}' || c == '\U{1680}' || c == '\U{180E}'
    || ('\U{2000}' <= c <= '\U{200A}')     // en quad .. hair space
    || c == '\U{2028}' || c == '\U{2029}' || c == '\U{202F}' || c == '\U{205F}' || c == '\U{3000}'
  }

  predicate IsUpper(c: char) {
    'A' <= c <= 'Z'
  }

  predicate SpaceFree(w: string) {
    forall i :: 0 <= i < |w| ==> !IsSpace(w[i])
  }

  predicate NoUpper(w: string) {
    forall i :: 0 <= i < |w| ==> !IsUpper(w[i])
  }

  /** Lower-casing of one character (ASCII letters only). */
  function LowerChar(c: char): (r: char)
    ensures !IsUpper(r)
    ensures IsSpace(r) <==> IsSpace(c)
    ensures !IsUpper(c) ==> r == c
  {
    if IsUpper(c) then (c as int + 32) as char else c
  }

  /** `s.lower()`: character by character. */
  function Lower(s: string): (r: string) {
    if s == [] then [] else [LowerChar(s[0])] + Lower(s[1..])
  }

  /** Lower-casing keeps the length, maps each character on its own and leaves
      no upper-case letter behind. */
  lemma {:induction false} LowerSpec(s: string)
    ensures |Lower(s)| == |s| && NoUpper(Lower(s))
    ensures forall i :: 0 <= i < |s| ==> Lower(s)[i] == LowerChar(s[i])
  {
    if s != [] {
      LowerSpec(s[1..]);
    }
  }

  lemma {:induction false} LowerIdempotent(s: string)
    ensures Lower(Lower(s)) == Lower(s)
  {
    LowerSpec(s);
    LowerSpec(Lower(s));
  }

  /** Text without upper-case letters is its own lower case. */
  lemma {:induction false} LowerOfNoUpper(s: string)
    requires NoUpper(s)
    ensures Lower(s) == s
  {
    LowerSpec(s);
  }

  // ---------------------------------------------------------------------------
  // split()

  /** The longest prefix of `s` that holds no whitespace. */
  function TakeWord(s: string): (w: string)
    ensures w <= s && SpaceFree(w)
    ensures |w| < |s| ==> IsSpace(s[|w|])
  {
    if s == [] || IsSpace(s[0]) then [] else [s[0]] + TakeWord(s[1..])
  }

  /** `s.split()`: the maximal runs of non-whitespace characters, in order. */
  function Split(s: string): (words: seq<string>)
    ensures forall w :: w in words ==> w != [] && SpaceFree(w)
    decreases |s|
  {
    if s == [] then []
    else if IsSpace(s[0]) then Split(s[1..])
    else [TakeWord(s)] + Split(s[|TakeWord(s)|..])
  }

  /** Every character of every word comes from the input. */
  lemma {:induction false} SplitChars(s: string)
    ensures forall w :: w in Split(s) ==> forall i :: 0 <= i < |w| ==> w[i] in s
    decreases |s|
  {
    if s == [] {
    } else if IsSpace(s[0]) {
      SplitChars(s[1..]);
      assert forall c :: c in s[1..] ==> c in s;
    } else {
      var w := TakeWord(s);
      SplitChars(s[|w|..]);
      assert forall i :: 0 <= i < |w| ==> w[i] == s[i];
      assert forall c :: c in s[|w|..] ==> c in s;
    }
  }

  /** `s` with every whitespace character removed. */
  function Squeeze(s: string): string {
    if s == [] then [] else (if IsSpace(s[0]) then [] else [s[0]]) + Squeeze(s[1..])
  }

  function Concat(words: seq<string>): string {
    if words == [] then [] else words[0] + Concat(words[1..])
  }

  /** `" ".join(words)` */
  function JoinSpaced(words: seq<string>): string {
    if |words| <= 1 then Concat(words) else words[0] + [' '] + JoinSpaced(words[1..])
  }

  lemma {:induction false} SqueezeAppend(a: string, b: string)
    ensures Squeeze(a + b) == Squeeze(a) + Squeeze(b)
  {
    if a != [] {
      assert (a + b)[0] == a[0] && (a + b)[1..] == a[1..] + b;
      SqueezeAppend(a[1..], b);
    } else {
      assert a + b == b;
    }
  }

  lemma {:induction false} SqueezeSpaceFree(w: string)
    requires SpaceFree(w)
    ensures Squeeze(w) == w
  {
    if w != [] {
      SqueezeSpaceFree(w[1..]);
    }
  }

  /** split() loses nothing but whitespace: the words, run together, are the
      input with its whitespace taken out. */
  lemma {:induction false} SplitKeepsNonSpace(s: string)
    ensures Concat(Split(s)) == Squeeze(s)
    decreases |s|
  {
    if s == [] {
    } else if IsSpace(s[0]) {
      SplitKeepsNonSpace(s[1..]);
    } else {
      var w := TakeWord(s);
      var rest := s[|w|..];
      assert s == w + rest;
      SplitKeepsNonSpace(rest);
      SqueezeAppend(w, rest);
      SqueezeSpaceFree(w);
      assert ([w] + Split(rest))[1..] == Split(rest);
    }
  }

  lemma {:induction false} TakeWordOfJoin(w: string, rest: string)
    requires SpaceFree(w)
    requires rest == [] || IsSpace(rest[0])
    ensures TakeWord(w + rest) == w
  {
    if w != [] {
      assert (w + rest)[1..] == w[1..] + rest;
      TakeWordOfJoin(w[1..], rest);
    }
  }

  /** split() undoes " ".join() for words that are non-empty and hold no whitespace. */
  lemma {:induction false} SplitJoinSpaced(words: seq<string>)
    requires forall w :: w in words ==> w != [] && SpaceFree(w)
    ensures Split(JoinSpaced(words)) == words
  {
    if words == [] {
    } else if |words| == 1 {
      var w := words[0];
      assert Concat(words) == w + Concat([]);
      assert w == w + [];
      TakeWordOfJoin(w, []);
      assert Split(w) == [w] + Split(w[|w|..]);
    } else {
      var w := words[0];
      var tail := JoinSpaced(words[1..]);
      var s := w + [' '] + tail;
      assert s == w + ([' '] + tail);
      TakeWordOfJoin(w, [' '] + tail);
      assert s[|w|..] == [' '] + tail;
      assert ([' '] + tail)[1..] == tail;
      assert forall v :: v in words[1..] ==> v in words;
      SplitJoinSpaced(words[1..]);
      assert Split(s) == [w] + Split([' '] + tail);
    }
  }

  /** Text made only of whitespace. */
  predicate AllSpace(w: string) {
    forall i :: 0 <= i < |w| ==> IsSpace(w[i])
  }

  /** `words[0] + seps[0] + words[1] + ... + words[n-1]`: words with a
      separator between each two neighbours. */
  function Joined(words: seq<string>, seps: seq<string>): string
    requires |words| == 0 ==> seps == []
    requires |words| > 0 ==> |seps| == |words| - 1
    decreases |words|
  {
    if |words| == 0 then []
    else if |words| == 1 then words[0]
    else words[0] + seps[0] + Joined(words[1..], seps[1..])
  }

  /** Whitespace in front of the text is skipped. */
  lemma {:induction false} SplitSkipsSpace(ws: string, rest: string)
    requires AllSpace(ws)
    ensures Split(ws + rest) == Split(rest)
  {
    if ws == [] {
      assert ws + rest == rest;
    } else {
      assert (ws + rest)[0] == ws[0] && (ws + rest)[1..] == ws[1..] + rest;
      SplitSkipsSpace(ws[1..], rest);
    }
  }

  /** A word followed by the end of the text or by whitespace is split off whole. */
  lemma SplitWordFirst(w: string, rest: string)
    requires w != [] && SpaceFree(w)
    requires rest == [] || IsSpace(rest[0])
    ensures Split(w + rest) == [w] + Split(rest)
  {
    TakeWordOfJoin(w, rest);
    assert (w + rest)[0] == w[0];
    assert (w + rest)[|w|..] == rest;
  }

  /** Whitespace alone has no words. */
  lemma SplitAllSpace(ws: string)
    requires AllSpace(ws)
    ensures Split(ws) == []
  {
    SplitSkipsSpace(ws, []);
    assert ws + [] == ws;
  }

  /** A word and the whitespace run after it are split off as that word. */
  lemma SplitWordSep(w: string, sep: string, rest: string)
    requires w != [] && SpaceFree(w)
    requires sep != [] && AllSpace(sep)
    ensures Split(w + sep + rest) == [w] + Split(rest)
  {
    assert w + sep + rest == w + (sep + rest);
    SplitWordFirst(w, sep + rest);
    SplitSkipsSpace(sep, rest);
  }

  lemma JoinedCons(words: seq<string>, seps: seq<string>, trail: string)
    requires |words| > 1 && |seps| == |words| - 1
    ensures Joined(words, seps) + trail == words[0] + seps[0] + (Joined(words[1..], seps[1..]) + trail)
  {
  }

  /** Separated words followed by whitespace split into those words. */
  lemma {:induction false} SplitJoinedTrail(words: seq<string>, seps: seq<string>, trail: string)
    requires AllSpace(trail)
    requires forall k :: 0 <= k < |words| ==> words[k] != [] && SpaceFree(words[k])
    requires |words| == 0 ==> seps == []
    requires |words| > 0 ==> |seps| == |words| - 1
    requires forall k :: 0 <= k < |seps| ==> seps[k] != [] && AllSpace(seps[k])
    ensures Split(Joined(words, seps) + trail) == words
    decreases |words|
  {
    if |words| == 0 {
      assert Joined(words, seps) + trail == trail;
      SplitAllSpace(trail);
    } else if |words| == 1 {
      SplitWordFirst(words[0], trail);
      SplitAllSpace(trail);
    } else {
      var rest := Joined(words[1..], seps[1..]) + trail;
      JoinedCons(words, seps, trail);
      SplitWordSep(words[0], seps[0], rest);
      assert forall k :: 0 <= k < |words[1..]| ==> words[1..][k] == words[k + 1];
      assert forall k :: 0 <= k < |seps[1..]| ==> seps[1..][k] == seps[k + 1];
      SplitJoinedTrail(words[1..], seps[1..], trail);
    }
  }

  /** `split()` cuts at every run of whitespace, whatever its characters and
      its length, and ignores whitespace at either end: the words of text
      built from words and non-empty whitespace separators, with any
      whitespace before and after, are exactly those words. */
  lemma SplitJoined(lead: string, words: seq<string>, seps: seq<string>, trail: string)
    requires AllSpace(lead) && AllSpace(trail)
    requires forall k :: 0 <= k < |words| ==> words[k] != [] && SpaceFree(words[k])
    requires |words| == 0 ==> seps == []
    requires |words| > 0 ==> |seps| == |words| - 1
    requires forall k :: 0 <= k < |seps| ==> seps[k] != [] && AllSpace(seps[k])
    ensures Split(lead + Joined(words, seps) + trail) == words
  {
    assert lead + Joined(words, seps) + trail == lead + (Joined(words, seps) + trail);
    SplitSkipsSpace(lead, Joined(words, seps) + trail);
    SplitJoinedTrail(words, seps, trail);
  }

  // ---------------------------------------------------------------------------
  // the `in` operator on strings

  ghost predicate OccursAt(hay: string, needle: string, i: int) {
    0 <= i && i + |needle| <= |hay| && hay[i..i + |needle|] == needle
  }

  /** `needle in hay`: `needle` is a contiguous substring of `hay`. */
  function Contains(hay: string, needle: string): (r: bool)
    decreases |hay|
  {
    if needle <= hay then true
    else if hay == [] then false
    else Contains(hay[1..], needle)
  }

  lemma {:induction false} ContainsIffOccurs(hay: string, needle: string)
    ensures Contains(hay, needle) <==> exists i :: OccursAt(hay, needle, i)
    decreases |hay|
  {
    if needle <= hay {
      assert OccursAt(hay, needle, 0);
    } else if hay == [] {
      assert !OccursAt(hay, needle, 0);
    } else {
      ContainsIffOccurs(hay[1..], needle);
      if i :| OccursAt(hay[1..], needle, i) {
        assert hay[i + 1..i + 1 + |needle|] == hay[1..][i..i + |needle|];
        assert OccursAt(hay, needle, i + 1);
      }
      if i :| OccursAt(hay, needle, i) {
        assert i != 0;
        assert hay[1..][i - 1..i - 1 + |needle|] == hay[i..i + |needle|];
        assert OccursAt(hay[1..], needle, i - 1);
      }
    }
  }

  /** Being a substring is transitive: a word that occurs in a longer word
      occurs wherever the longer word does. */
  lemma {:induction false} ContainsTransitive(hay: string, mid: string, needle: string)
    requires Contains(hay, mid) && Contains(mid, needle)
    ensures Contains(hay, needle)
  {
    ContainsIffOccurs(hay, mid);
    ContainsIffOccurs(mid, needle);
    ContainsIffOccurs(hay, needle);
    var i :| OccursAt(hay, mid, i);
    var j :| OccursAt(mid, needle, j);
    forall k | 0 <= k < |needle|
      ensures hay[i + j..i + j + |needle|][k] == needle[k]
    {
      assert needle[k] == mid[j + k] == hay[i + j + k];
    }
    assert OccursAt(hay, needle, i + j);
  }
}
