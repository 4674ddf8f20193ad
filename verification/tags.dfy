/**
 The tag codec: `parse_tags` extracts every `<name>content</name>` block of a free
 text with the regex `<(\w+)>(.*?)</\1>` under DOTALL, via `re.findall`, and keeps
 the stripped content of the last block of each name.

 The regex is modelled twice: `MatchAt`/`Scan` are a character scanner that does
 what the regex engine does, and `IsMatchAt`/`IsFindAll` state what a match and
 the leftmost non-overlapping match list are. `ScanIsFindAll` ties the two together.
 */
module Tags {

  import opened PyValues
  import opened Text

  /** One block as captured by the two regex groups; `content` is not yet stripped. */
  datatype Match = Match(name: string, content: string)

  /** A match and the position of its opening `<` in the scanned text. */
  datatype Hit = Hit(at: nat, m: Match)

  function Open(name: string): string {
    "<" + name + ">"
  }

  function Close(name: string): string {
    "</" + name + ">"
  }

  /** Producer side of the codec: wrap `content` in a `name` tag, without escaping. */
  function Encode(name: string, content: string): string {
    Open(name) + content + Close(name)
  }

  /** Number of characters a match covers. */
  function Span(m: Match): nat {
    |Encode(m.name, m.content)|
  }

  /** Length of the longest run of word characters starting at `i`: what greedy `\w+` takes. */
  function WordRunLength(text: string, i: nat): (n: nat)
    requires i <= |text|
    ensures i + n <= |text|
    decreases |text| - i
  {
    if i < |text| && IsWordChar(text[i]) then 1 + WordRunLength(text, i + 1) else 0
  }

  /** The run `WordRunLength` measures is all word characters and cannot be extended. */
  lemma {:induction false} WordRunIsMaximal(text: string, i: nat)
    requires i <= |text|
    ensures forall k :: i <= k < i + WordRunLength(text, i) ==> IsWordChar(text[k])
    ensures i + WordRunLength(text, i) == |text| || !IsWordChar(text[i + WordRunLength(text, i)])
    decreases |text| - i
  {
    if i < |text| && IsWordChar(text[i]) {
      WordRunIsMaximal(text, i + 1);
    }
  }

  /**
   The regex tried at position `i`. Because `>` is not a word character, the only
   way `\w+` can be followed by `>` is with the whole run, so the name is the
   maximal word run; the lazy `(.*?)` then ends at the first `</name>`.
   */
  function MatchAt(text: string, i: nat): Option<Match> {
    if i < |text| && text[i] == '<' then
      var n := WordRunLength(text, i + 1);
      if n > 0 && i + 1 + n < |text| && text[i + 1 + n] == '>' then
        var name := text[i + 1..i + 1 + n];
        var j := i + n + 2;
        match FindFrom(text, j, Close(name))
        case Some(k) => Some(Match(name, text[j..k]))
        case None => None
      else None
    else None
  }

  /**
   What it means for the regex to match at `i` with groups `m`: the text there
   reads `<name>content</name>` for a word `name`, and no `</name>` starts
   earlier inside the content (the lazy quantifier stops at the first one).
   */
  ghost predicate IsMatchAt(text: string, i: nat, m: Match) {
    && IsWord(m.name)
    && StartsAt(text, i, Encode(m.name, m.content))
    && forall p :: i + |m.name| + 2 <= p < i + |m.name| + 2 + |m.content| ==> !StartsAt(text, p, Close(m.name))
  }

  /** The regex matches nowhere in positions `[lo, hi)`. */
  ghost predicate NoMatchIn(text: string, lo: nat, hi: int) {
    forall p: nat, m: Match :: lo <= p < hi ==> !IsMatchAt(text, p, m)
  }

  /**
   `hits` is what `re.findall` reports from position `lo` on: the leftmost match,
   then the leftmost match at or after its end, and so on, and no match after the last.
   */
  ghost predicate IsFindAll(text: string, lo: nat, hits: seq<Hit>)
    decreases |hits|
  {
    if hits == [] then NoMatchIn(text, lo, |text|)
    else
      && lo <= hits[0].at
      && NoMatchIn(text, lo, hits[0].at)
      && IsMatchAt(text, hits[0].at, hits[0].m)
      && IsFindAll(text, hits[0].at + Span(hits[0].m), hits[1..])
  }

  /** The scanner: try the regex at `i`; on a match resume after it, otherwise one character on. */
  function Scan(text: string, i: nat): seq<Hit>
    decreases |text| - i
  {
    if i >= |text| then []
    else
      match MatchAt(text, i)
      case Some(m) => [Hit(i, m)] + Scan(text, i + Span(m))
      case None => Scan(text, i + 1)
  }

  /** The dictionary loop: each block sets its name to its stripped content, later blocks overwriting. */
  function Collect(hits: seq<Hit>): (tags: map<string, string>)
    ensures forall k :: 0 <= k < |hits| ==> hits[k].m.name in tags
    ensures forall name :: name in tags ==> exists k :: 0 <= k < |hits| && hits[k].m.name == name
  {
    if hits == [] then map[]
    else
      var rest := Collect(hits[1..]);
      assert forall k :: 1 <= k < |hits| ==> hits[k] == hits[1..][k - 1];
      map[hits[0].m.name := Strip(hits[0].m.content)] + rest
  }

  /** `parse_tags(text)`. */
  function ParseTags(text: string): map<string, string> {
    Collect(Scan(text, 0))
  }

  // ---------------------------------------------------------------------------
  // The scanner agrees with the regex semantics.

  /** A match found by `MatchAt` is a regex match and lies inside the text. */
  lemma MatchAtSound(text: string, i: nat)
    requires MatchAt(text, i).Some?
    ensures IsMatchAt(text, i, MatchAt(text, i).value)
    ensures i + Span(MatchAt(text, i).value) <= |text|
  {
    var n, k := MatchAtParts(text, i);
    PartsMakeMatch(text, i, n, k);
  }

  /** The pieces `MatchAt` reads make a regex match. */
  lemma PartsMakeMatch(text: string, i: nat, n: nat, k: nat)
    requires i + 1 + n < |text| && 0 < n == WordRunLength(text, i + 1) && text[i] == '<' && text[i + 1 + n] == '>'
    requires i + n + 2 <= k <= |text|
    requires FindFrom(text, i + n + 2, Close(text[i + 1..i + 1 + n])) == Some(k)
    ensures IsMatchAt(text, i, Match(text[i + 1..i + 1 + n], text[i + n + 2..k]))
    ensures i + Span(Match(text[i + 1..i + 1 + n], text[i + n + 2..k])) <= |text|
  {
    WordRunSliceIsWord(text, i + 1, n);
    SliceBlock(text, i, n, k);
    FindFromNoneBefore(text, i + n + 2, Close(text[i + 1..i + 1 + n]), k);
    SliceNoCloser(text, i, n, k, Close(text[i + 1..i + 1 + n]));
  }

  /** The text from `i` to the closer at `k` reads as the block of its name and content slices. */
  lemma SliceBlock(text: string, i: nat, n: nat, k: nat)
    requires i + 1 + n < |text| && text[i] == '<' && text[i + 1 + n] == '>' && i + n + 2 <= k <= |text|
    requires StartsAt(text, k, Close(text[i + 1..i + 1 + n]))
    ensures StartsAt(text, i, Encode(text[i + 1..i + 1 + n], text[i + n + 2..k]))
  {
    var name := text[i + 1..i + 1 + n];
    var content := text[i + n + 2..k];
    assert |name| == n && |content| == k - (i + n + 2);
    assert StartsAt(text, i + 1, name);
    assert StartsAt(text, i + n + 2, content);
    EncodeFromPieces(text, i, name, content);
  }

  /** The closer-free stretch before `k`, restated over the lengths of the two slices. */
  lemma SliceNoCloser(text: string, i: nat, n: nat, k: nat, closer: string)
    requires i + 1 + n < |text| && i + n + 2 <= k <= |text|
    requires forall p :: i + n + 2 <= p < k ==> !StartsAt(text, p, closer)
    ensures forall p :: i + |text[i + 1..i + 1 + n]| + 2 <= p < i + |text[i + 1..i + 1 + n]| + 2 + |text[i + n + 2..k]|
                        ==> !StartsAt(text, p, closer)
  {
    assert i + |text[i + 1..i + 1 + n]| + 2 == i + n + 2 && i + n + 2 + |text[i + n + 2..k]| == k;
  }

  /** The name length `n` and the closer position `k` `MatchAt` reads when it finds a match. */
  lemma MatchAtParts(text: string, i: nat) returns (n: nat, k: nat)
    requires MatchAt(text, i).Some?
    ensures 0 < n == WordRunLength(text, i + 1) && i + 1 + n < |text| && text[i] == '<' && text[i + 1 + n] == '>'
    ensures i + n + 2 <= k <= |text|
    ensures FindFrom(text, i + n + 2, Close(text[i + 1..i + 1 + n])) == Some(k)
    ensures MatchAt(text, i) == Some(Match(text[i + 1..i + 1 + n], text[i + n + 2..k]))
  {
    n := WordRunLength(text, i + 1);
    k := FindFrom(text, i + n + 2, Close(text[i + 1..i + 1 + n])).value;
  }

  /** The characters a positive `WordRunLength` covers form a word. */
  lemma WordRunSliceIsWord(text: string, i: nat, n: nat)
    requires i <= |text| && 0 < n == WordRunLength(text, i)
    ensures IsWord(text[i..i + n])
  {
    var w := text[i..i + n];
    WordRunIsMaximal(text, i);
    forall q | 0 <= q < |w| ensures IsWordChar(w[q]) {
      assert w[q] == text[i + q];
    }
  }

  /** A match found by the scanner lies inside the text. */
  lemma MatchAtFits(text: string, i: nat)
    requires MatchAt(text, i).Some?
    ensures i + Span(MatchAt(text, i).value) <= |text|
  {
    var n, k := MatchAtParts(text, i);
  }

  /** With a word followed by a non-word character at `i`, greedy `\w+` takes exactly that word. */
  lemma WordRunIsWord(text: string, i: nat, name: string)
    requires IsWord(name) && StartsAt(text, i, name)
    requires i + |name| < |text| && !IsWordChar(text[i + |name|])
    ensures WordRunLength(text, i) == |name|
  {
    WordRunIsMaximal(text, i);
    forall q | i <= q < i + |name| ensures IsWordChar(text[q]) {
      assert text[q] == name[q - i];
    }
  }

  /** `FindFrom` stops at the first occurrence. */
  lemma FindFromFirst(s: string, j: nat, pat: string, k: nat)
    requires j <= k && StartsAt(s, k, pat)
    requires forall p :: j <= p < k ==> !StartsAt(s, p, pat)
    ensures FindFrom(s, j, pat) == Some(k)
    decreases k - j
  {
    if j < k {
      FindFromFirst(s, j + 1, pat, k);
    }
  }

  /** Every regex match at `i` is the one `MatchAt` finds. */
  lemma MatchAtComplete(text: string, i: nat, m: Match)
    requires IsMatchAt(text, i, m)
    ensures MatchAt(text, i) == Some(m)
  {
    var k := i + |m.name| + 2 + |m.content|;
    MatchNameParts(text, i, m);
    MatchContentParts(text, i, m);
    MatchAtFromParts(text, i, m.name, k);
  }

  /** The delimiters and the name `MatchAt` tests, read off a regex match. */
  lemma MatchNameParts(text: string, i: nat, m: Match)
    requires IsMatchAt(text, i, m)
    ensures i + 1 + |m.name| < |text| && text[i] == '<' && text[i + 1 + |m.name|] == '>'
    ensures |m.name| > 0 && WordRunLength(text, i + 1) == |m.name| && text[i + 1..i + 1 + |m.name|] == m.name
  {
    EncodeToPieces(text, i, m.name, m.content);
    WordRunIsWord(text, i + 1, m.name);
  }

  /** The closer `MatchAt` searches for and the content before it, read off a regex match. */
  lemma MatchContentParts(text: string, i: nat, m: Match)
    requires IsMatchAt(text, i, m)
    ensures i + |m.name| + 2 + |m.content| <= |text|
    ensures FindFrom(text, i + |m.name| + 2, Close(m.name)) == Some(i + |m.name| + 2 + |m.content|)
    ensures text[i + |m.name| + 2..i + |m.name| + 2 + |m.content|] == m.content
  {
    var j := i + |m.name| + 2;
    EncodeToPieces(text, i, m.name, m.content);
    ContentIsFound(text, j, m.content, Close(m.name));
    assert FindFrom(text, j, Close(m.name)) == Some(j + |m.content|);
    assert text[j..j + |m.content|] == m.content;
  }

  /** Content followed by its first closer is what `FindFrom` and the slice up to it read. */
  lemma ContentIsFound(text: string, j: nat, content: string, closer: string)
    requires StartsAt(text, j, content) && StartsAt(text, j + |content|, closer)
    requires forall p :: j <= p < j + |content| ==> !StartsAt(text, p, closer)
    ensures FindFrom(text, j, closer) == Some(j + |content|)
    ensures text[j..j + |content|] == content
  {
    FindFromFirst(text, j, closer, j + |content|);
  }

  /** `MatchAt` read off from the facts its branches test. */
  lemma MatchAtFromParts(text: string, i: nat, name: string, k: nat)
    requires i + 1 + |name| < |text| && text[i] == '<' && text[i + 1 + |name|] == '>'
    requires |name| > 0 && WordRunLength(text, i + 1) == |name| && text[i + 1..i + 1 + |name|] == name
    requires i + |name| + 2 <= |text| && FindFrom(text, i + |name| + 2, Close(name)) == Some(k)
    ensures i + |name| + 2 <= k <= |text|
    ensures MatchAt(text, i) == Some(Match(name, text[i + |name| + 2..k]))
  {
  }

  /** Reading `<name>content</name>` at `i`, piece by piece. */
  lemma EncodeAt(text: string, i: nat, name: string, content: string)
    ensures StartsAt(text, i, Encode(name, content)) <==>
      && i + 1 + |name| < |text| && text[i] == '<' && StartsAt(text, i + 1, name) && text[i + 1 + |name|] == '>'
      && StartsAt(text, i + |name| + 2, content) && StartsAt(text, i + |name| + 2 + |content|, Close(name))
  {
    StartsAtConcat(text, i, Open(name) + content, Close(name));
    StartsAtConcat(text, i, Open(name), content);
    StartsAtConcat(text, i, "<" + name, ">");
    StartsAtConcat(text, i, "<", name);
    if i + 1 + |name| < |text| {
      assert StartsAt(text, i, "<") <==> text[i] == '<' by {
        assert text[i..i + 1] == [text[i]];
      }
      assert StartsAt(text, i + 1 + |name|, ">") <==> text[i + 1 + |name|] == '>' by {
        assert text[i + 1 + |name|..i + 2 + |name|] == [text[i + 1 + |name|]];
      }
    }
  }

  lemma EncodeFromPieces(text: string, i: nat, name: string, content: string)
    requires i + 1 + |name| < |text| && text[i] == '<' && StartsAt(text, i + 1, name) && text[i + 1 + |name|] == '>'
    requires StartsAt(text, i + |name| + 2, content) && StartsAt(text, i + |name| + 2 + |content|, Close(name))
    ensures StartsAt(text, i, Encode(name, content))
  {
    EncodeAt(text, i, name, content);
  }

  lemma EncodeToPieces(text: string, i: nat, name: string, content: string)
    requires StartsAt(text, i, Encode(name, content))
    ensures i + 1 + |name| < |text| && text[i] == '<' && StartsAt(text, i + 1, name) && text[i + 1 + |name|] == '>'
    ensures StartsAt(text, i + |name| + 2, content) && StartsAt(text, i + |name| + 2 + |content|, Close(name))
  {
    EncodeAt(text, i, name, content);
  }

  /** `MatchAt` is exactly the regex tried at one position. */
  lemma MatchAtIsRegexMatch(text: string, i: nat, m: Match)
    ensures MatchAt(text, i) == Some(m) <==> IsMatchAt(text, i, m)
  {
    if MatchAt(text, i) == Some(m) {
      MatchAtSound(text, i);
    }
    if IsMatchAt(text, i, m) {
      MatchAtComplete(text, i, m);
    }
  }

  /** Regex matches at `i` are unique: the name and the content are both forced. */
  lemma MatchIsUnique(text: string, i: nat, m1: Match, m2: Match)
    requires IsMatchAt(text, i, m1) && IsMatchAt(text, i, m2)
    ensures m1 == m2
  {
    MatchAtComplete(text, i, m1);
    MatchAtComplete(text, i, m2);
  }

  /** Where the scanner finds nothing, the regex matches nothing. */
  lemma NoMatchWhereScannerFindsNone(text: string, p: nat)
    requires MatchAt(text, p).None?
    ensures forall m :: !IsMatchAt(text, p, m)
  {
    forall m ensures !IsMatchAt(text, p, m) {
      if IsMatchAt(text, p, m) {
        MatchAtComplete(text, p, m);
      }
    }
  }

  lemma {:induction false} ScanFindsAll(text: string, lo: nat)
    ensures IsFindAll(text, lo, Scan(text, lo))
    decreases |text| - lo, 1
  {
    if lo < |text| {
      if MatchAt(text, lo).Some? {
        ScanFindsAllAtMatch(text, lo);
      } else {
        ScanFindsAll(text, lo + 1);
        FindAllWiden(text, lo, Scan(text, lo + 1));
      }
    }
  }

  lemma {:induction false} ScanFindsAllAtMatch(text: string, lo: nat)
    requires lo < |text| && MatchAt(text, lo).Some?
    ensures IsFindAll(text, lo, Scan(text, lo))
    decreases |text| - lo, 0
  {
    var m := MatchAt(text, lo).value;
    var rest := Scan(text, lo + Span(m));
    ScanAtMatch(text, lo);
    MatchAtSound(text, lo);
    ScanFindsAll(text, lo + Span(m));
    FindAllCons(text, lo, Hit(lo, m), rest);
  }

  /** On a match the scanner reports it and resumes at its end. */
  lemma ScanAtMatch(text: string, lo: nat)
    requires lo < |text| && MatchAt(text, lo).Some?
    ensures Scan(text, lo) == [Hit(lo, MatchAt(text, lo).value)] + Scan(text, lo + Span(MatchAt(text, lo).value))
  {
  }

  /** A match at the first position, then a find-all list from its end, is a find-all list. */
  lemma FindAllCons(text: string, lo: nat, h: Hit, rest: seq<Hit>)
    requires h.at == lo && IsMatchAt(text, lo, h.m) && IsFindAll(text, lo + Span(h.m), rest)
    ensures IsFindAll(text, lo, [h] + rest)
  {
    assert ([h] + rest)[1..] == rest;
    assert NoMatchIn(text, lo, lo);
  }

  /** A position the scanner rejects can be put in front of a find-all list. */
  lemma FindAllWiden(text: string, lo: nat, hits: seq<Hit>)
    requires MatchAt(text, lo).None? && IsFindAll(text, lo + 1, hits)
    ensures IsFindAll(text, lo, hits)
  {
    var hi := if hits == [] then |text| else hits[0].at;
    NoMatchExtends(text, lo, hi);
    if hits != [] {
      assert IsMatchAt(text, hits[0].at, hits[0].m);
      NoMatchWhereScannerFindsNone(text, lo);
      assert hits[0].at != lo;
    }
  }

  /** A gap free of matches can be widened by one position the scanner rejects. */
  lemma NoMatchExtends(text: string, lo: nat, hi: int)
    requires MatchAt(text, lo).None? && NoMatchIn(text, lo + 1, hi)
    ensures NoMatchIn(text, lo, hi)
  {
    NoMatchWhereScannerFindsNone(text, lo);
    forall p: nat, m: Match | lo <= p < hi ensures !IsMatchAt(text, p, m) {
      if p > lo {
        assert lo + 1 <= p < hi;
      }
    }
  }

  lemma {:induction false} FindAllIsUnique(text: string, lo: nat, h1: seq<Hit>, h2: seq<Hit>)
    requires IsFindAll(text, lo, h1) && IsFindAll(text, lo, h2)
    ensures h1 == h2
    decreases |h1|
  {
    if h1 == [] || h2 == [] {
      assert h1 == [] && h2 == [];
    } else {
      assert h1[0].at == h2[0].at;
      MatchIsUnique(text, h1[0].at, h1[0].m, h2[0].m);
      FindAllIsUnique(text, h1[0].at + Span(h1[0].m), h1[1..], h2[1..]);
      assert h1 == [h1[0]] + h1[1..];
      assert h2 == [h2[0]] + h2[1..];
    }
  }

  /** The scanner reports exactly the leftmost non-overlapping matches that `re.findall` reports. */
  lemma ScanIsFindAll(text: string, lo: nat, hits: seq<Hit>)
    ensures Scan(text, lo) == hits <==> IsFindAll(text, lo, hits)
  {
    ScanFindsAll(text, lo);
    if IsFindAll(text, lo, hits) {
      FindAllIsUnique(text, lo, Scan(text, lo), hits);
    }
  }

  /**
   `re.findall` matches never overlap: each reported block starts at or after the
   end of the previous one, and all of them lie inside the text.
   */
  lemma {:induction false} ScanHitsDoNotOverlap(text: string, i: nat)
    ensures HitsInOrder(text, i, Scan(text, i))
    decreases |text| - i
  {
    if i < |text| {
      if MatchAt(text, i).Some? {
        var m := MatchAt(text, i).value;
        MatchAtFits(text, i);
        ScanHitsDoNotOverlap(text, i + Span(m));
        HitsInOrderCons(text, i, Hit(i, m), Scan(text, i + Span(m)));
      } else {
        ScanHitsDoNotOverlap(text, i + 1);
      }
    }
  }

  /** Hits lie in `[i, |text|)` and each starts at or after the end of the one before. */
  ghost predicate HitsInOrder(text: string, i: nat, hits: seq<Hit>) {
    && (forall k :: 0 <= k < |hits| ==> i <= hits[k].at && hits[k].at + Span(hits[k].m) <= |text|)
    && (forall k :: 0 <= k < |hits| - 1 ==> hits[k].at + Span(hits[k].m) <= hits[k + 1].at)
  }

  lemma HitsInOrderCons(text: string, i: nat, h: Hit, rest: seq<Hit>)
    requires h.at == i && i + Span(h.m) <= |text| && HitsInOrder(text, i + Span(h.m), rest)
    ensures HitsInOrder(text, i, [h] + rest)
  {
    var hits := [h] + rest;
    assert forall k :: 1 <= k < |hits| ==> hits[k] == rest[k - 1];
  }
}
