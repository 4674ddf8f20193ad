/**
 Properties of `parse_tags`: what its keys and values look like, when it finds
 nothing, how it decodes what the producers write, and how duplicate and nested
 blocks are treated.
 */
module TagLaws {

  import opened Text
  import opened Tags

  // ---------------------------------------------------------------------------
  // The dictionary loop.

  lemma CollectCons(h: Hit, hs: seq<Hit>)
    ensures Collect([h] + hs) == map[h.m.name := Strip(h.m.content)] + Collect(hs)
  {
    assert ([h] + hs)[1..] == hs;
  }

  /**
   Every key's value comes from the LAST block of that name: `k` is returned with
   `hits[k]` carrying the key, the value equal to its stripped content, and no
   later block of the same name.
   */
  lemma {:induction false} CollectLastWins(hits: seq<Hit>, name: string) returns (k: nat)
    requires name in Collect(hits)
    ensures k < |hits| && hits[k].m.name == name
    ensures Collect(hits)[name] == Strip(hits[k].m.content)
    ensures forall j :: k < j < |hits| ==> hits[j].m.name != name
  {
    var rest := hits[1..];
    assert hits == [hits[0]] + rest;
    CollectCons(hits[0], rest);
    if name in Collect(rest) {
      var k' := CollectLastWins(rest, name);
      k := k' + 1;
      assert hits[k] == rest[k'];
      forall j | k < j < |hits| ensures hits[j].m.name != name {
        assert hits[j] == rest[j - 1];
      }
    } else {
      k := 0;
      forall j | 0 < j < |hits| ensures hits[j].m.name != name {
        assert hits[j] == rest[j - 1];
      }
    }
  }

  /** Conversely, the last block of a name decides that name's value. */
  lemma {:induction false} LastHitDecides(hits: seq<Hit>, k: nat)
    requires k < |hits|
    requires forall j :: k < j < |hits| ==> hits[j].m.name != hits[k].m.name
    ensures hits[k].m.name in Collect(hits)
    ensures Collect(hits)[hits[k].m.name] == Strip(hits[k].m.content)
  {
    var name := hits[k].m.name;
    var k' := CollectLastWins(hits, name);
    assert k' == k;
  }

  // ---------------------------------------------------------------------------
  // What parse_tags returns.

  lemma {:induction false} FindAllHitsMatch(text: string, lo: nat, hits: seq<Hit>)
    requires IsFindAll(text, lo, hits)
    ensures forall k :: 0 <= k < |hits| ==> IsMatchAt(text, hits[k].at, hits[k].m)
    decreases |hits|
  {
    if hits != [] {
      FindAllHitsMatch(text, hits[0].at + Span(hits[0].m), hits[1..]);
      forall k | 1 <= k < |hits| ensures IsMatchAt(text, hits[k].at, hits[k].m) {
        assert hits[k] == hits[1..][k - 1];
      }
    }
  }

  /** Every block `re.findall` reports is a regex match in the text. */
  lemma ScanHitsMatch(text: string, lo: nat)
    ensures forall k :: 0 <= k < |Scan(text, lo)| ==> IsMatchAt(text, Scan(text, lo)[k].at, Scan(text, lo)[k].m)
  {
    ScanIsFindAll(text, lo, Scan(text, lo));
    FindAllHitsMatch(text, lo, Scan(text, lo));
  }

  /** A regex match carries its opener and its closer. */
  lemma MatchHasDelimiters(text: string, i: nat, m: Match)
    requires IsMatchAt(text, i, m)
    ensures Occurs(Open(m.name), text) && Occurs(Close(m.name), text)
  {
    var n := |m.name|;
    EncodeAt(text, i, m.name, m.content);
    StartsAtConcat(text, i, "<", m.name);
    assert StartsAt(text, i, "<") by { assert text[i..i + 1] == [text[i]]; }
    assert StartsAt(text, i + 1 + n, ">") by { assert text[i + 1 + n..i + 2 + n] == [text[i + 1 + n]]; }
    StartsAtConcat(text, i, "<" + m.name, ">");
    assert StartsAt(text, i, Open(m.name));
    assert StartsAt(text, i + n + 2 + |m.content|, Close(m.name));
  }

  /** The content of a regex match never contains the closer of its own name. */
  lemma MatchContentHasNoCloser(text: string, i: nat, m: Match)
    requires IsMatchAt(text, i, m)
    ensures !Occurs(Close(m.name), m.content)
  {
    var j := i + |m.name| + 2;
    var cl := Close(m.name);
    EncodeAt(text, i, m.name, m.content);
    assert text[j..j + |m.content|] == m.content;
    forall q | 0 <= q <= |m.content| ensures !StartsAt(m.content, q, cl) {
      if StartsAt(m.content, q, cl) {
        StartsAtInSlice(text, j, j + |m.content|, q, cl);
      }
    }
  }

  /**
   Every key is a word whose opener `<k>` and closer `</k>` both occur in the
   text; its value is stripped and never contains the closer `</k>` (the lazy
   match stops at the first one).
   */
  lemma ParsedTagsWellFormed(text: string, name: string)
    requires name in ParseTags(text)
    ensures IsWord(name)
    ensures Occurs(Open(name), text) && Occurs(Close(name), text)
    ensures IsStripped(ParseTags(text)[name])
    ensures !Occurs(Close(name), ParseTags(text)[name])
  {
    var hits := Scan(text, 0);
    var k := CollectLastWins(hits, name);
    ScanHitsMatch(text, 0);
    var m := hits[k].m;
    assert IsMatchAt(text, hits[k].at, m);
    MatchHasDelimiters(text, hits[k].at, m);
    MatchContentHasNoCloser(text, hits[k].at, m);
    var a, b :| 0 <= a <= b <= |m.content| && Strip(m.content) == m.content[a..b];
    if Occurs(Close(name), Strip(m.content)) {
      OccursInSlice(Close(name), m.content, a, b);
    }
  }

  /** `parse_tags` keeps, for each name, the content of the last block of that name. */
  lemma LastMatchWins(text: string, k: nat)
    requires k < |Scan(text, 0)|
    requires forall j :: k < j < |Scan(text, 0)| ==> Scan(text, 0)[j].m.name != Scan(text, 0)[k].m.name
    ensures Scan(text, 0)[k].m.name in ParseTags(text)
    ensures ParseTags(text)[Scan(text, 0)[k].m.name] == Strip(Scan(text, 0)[k].m.content)
  {
    LastHitDecides(Scan(text, 0), k);
  }

  /** The result is empty exactly when the regex matches nowhere in the text. */
  lemma NoBlockNoTags(text: string)
    ensures ParseTags(text) == map[] <==> NoMatchIn(text, 0, |text|)
  {
    ScanIsFindAll(text, 0, []);
    var hits := Scan(text, 0);
    if hits != [] {
      assert hits[0].m.name in ParseTags(text);
    }
  }

  /** Text without a `<` (plain prose, a bare action) yields no tags. */
  lemma PlainTextHasNoTags(text: string)
    requires forall k :: 0 <= k < |text| ==> text[k] != '<'
    ensures ParseTags(text) == map[]
  {
    forall p: nat, m: Match | 0 <= p < |text| ensures !IsMatchAt(text, p, m) {
      EncodeAt(text, p, m.name, m.content);
    }
    NoBlockNoTags(text);
  }

  // ---------------------------------------------------------------------------
  // Decoding what producers encode.

  /** Inside `</name>` only the first character is a `<`. */
  lemma CloserHasOneAngle(name: string)
    requires IsWord(name)
    ensures forall k :: 0 < k < |Close(name)| ==> Close(name)[k] != '<'
  {
    forall k | 0 < k < |Close(name)| ensures Close(name)[k] != '<' {
      if 2 <= k < |name| + 2 {
        assert Close(name)[k] == name[k - 2];
      }
    }
  }

  /** In `<n>c</n>...` with no `</n>` inside `c`, the first `</n>` after the opener is the block's own. */
  lemma EncodedBlockMatches(n: string, c: string, rest: string)
    requires IsWord(n) && !Occurs(Close(n), c)
    ensures IsMatchAt(Encode(n, c) + rest, 0, Match(n, c))
  {
    var t := Encode(n, c) + rest;
    var j := |n| + 2;
    var q := j + |c|;
    assert StartsAt(t, 0, Encode(n, c));
    EncodeAt(t, 0, n, c);
    forall p | j <= p < q ensures !StartsAt(t, p, Close(n)) {
      if p + |Close(n)| <= q {
        assert c[p - j..p - j + |Close(n)|] == t[p..p + |Close(n)|];
        assert !StartsAt(c, p - j, Close(n));
      } else {
        CloserHasOneAngle(n);
        assert t[q] == Close(n)[0] == '<';
        assert Close(n)[q - p] != '<';
      }
    }
  }

  /** `r` is what follows position `d` in `t`. */
  ghost predicate SuffixAt(t: string, d: nat, r: string) {
    d <= |t| && t[d..] == r
  }

  lemma ConcatSuffix(p: string, r: string)
    ensures SuffixAt(p + r, |p|, r)
  {
  }

  lemma StartsAtSuffixAt(t: string, d: nat, r: string, x: nat, pat: string)
    requires SuffixAt(t, d, r)
    ensures StartsAt(t, d + x, pat) <==> StartsAt(r, x, pat)
  {
    StartsAtSuffix(t, d, x, pat);
  }

  lemma IsMatchAtSuffix(t: string, d: nat, r: string, i: nat, m: Match)
    requires SuffixAt(t, d, r)
    ensures IsMatchAt(t, d + i, m) <==> IsMatchAt(r, i, m)
  {
    var lo := i + |m.name| + 2;
    StartsAtSuffixAt(t, d, r, i, Encode(m.name, m.content));
    forall x | lo <= x < lo + |m.content|
      ensures StartsAt(t, d + x, Close(m.name)) <==> StartsAt(r, x, Close(m.name))
    {
      StartsAtSuffixAt(t, d, r, x, Close(m.name));
    }
    if IsMatchAt(r, i, m) {
      forall y | d + lo <= y < d + lo + |m.content| ensures !StartsAt(t, y, Close(m.name)) {
        assert StartsAt(t, d + (y - d), Close(m.name)) <==> StartsAt(r, y - d, Close(m.name));
      }
    }
  }

  /** The same hits, `d` positions further right. */
  function ShiftHits(hits: seq<Hit>, d: nat): (r: seq<Hit>)
    ensures |r| == |hits|
  {
    if hits == [] then [] else [Hit(hits[0].at + d, hits[0].m)] + ShiftHits(hits[1..], d)
  }

  lemma {:induction false} CollectShift(hits: seq<Hit>, d: nat)
    ensures Collect(ShiftHits(hits, d)) == Collect(hits)
  {
    if hits != [] {
      CollectShift(hits[1..], d);
      CollectCons(Hit(hits[0].at + d, hits[0].m), ShiftHits(hits[1..], d));
      CollectCons(hits[0], hits[1..]);
      assert hits == [hits[0]] + hits[1..];
    }
  }

  lemma NoMatchInSuffix(t: string, d: nat, r: string, lo: nat, hi: int)
    requires SuffixAt(t, d, r) && NoMatchIn(r, lo, hi)
    ensures NoMatchIn(t, d + lo, d + hi)
  {
    forall p: nat, m: Match | d + lo <= p < d + hi ensures !IsMatchAt(t, p, m) {
      IsMatchAtSuffix(t, d, r, p - d, m);
    }
  }

  /** A match, a match-free gap before it, and a find-all list after it make a find-all list. */
  lemma FindAllConsGap(text: string, lo: nat, h: Hit, rest: seq<Hit>)
    requires lo <= h.at && NoMatchIn(text, lo, h.at) && IsMatchAt(text, h.at, h.m)
    requires IsFindAll(text, h.at + Span(h.m), rest)
    ensures IsFindAll(text, lo, [h] + rest)
  {
    assert ([h] + rest)[1..] == rest;
  }

  /** `re.findall` on a suffix of a text reports what it reports on the text from there on. */
  lemma {:induction false} FindAllSuffix(t: string, d: nat, r: string, lo: nat, hits: seq<Hit>)
    requires SuffixAt(t, d, r) && IsFindAll(r, lo, hits)
    ensures IsFindAll(t, d + lo, ShiftHits(hits, d))
    decreases |hits|
  {
    if hits == [] {
      NoMatchInSuffix(t, d, r, lo, |r|);
    } else {
      var h := hits[0];
      NoMatchInSuffix(t, d, r, lo, h.at);
      IsMatchAtSuffix(t, d, r, h.at, h.m);
      FindAllSuffix(t, d, r, h.at + Span(h.m), hits[1..]);
      FindAllConsGap(t, d + lo, Hit(h.at + d, h.m), ShiftHits(hits[1..], d));
    }
  }

  /** Scanning a producer-written block at the front of a text. */
  lemma EncodedBlockScan(n: string, c: string, rest: string)
    requires IsWord(n) && !Occurs(Close(n), c)
    ensures Scan(Encode(n, c) + rest, 0) == [Hit(0, Match(n, c))] + Scan(Encode(n, c) + rest, |Encode(n, c)|)
  {
    var t := Encode(n, c) + rest;
    EncodedBlockMatches(n, c, rest);
    MatchAtComplete(t, 0, Match(n, c));
    ScanAtMatch(t, 0);
  }

  /**
   A block written by the producer, followed by any text: its name maps to its
   stripped content unless a later block of the same name overrides it.
   */
  lemma BlockThenRest(n: string, c: string, rest: string)
    requires IsWord(n) && !Occurs(Close(n), c)
    ensures ParseTags(Encode(n, c) + rest) == map[n := Strip(c)] + ParseTags(rest)
  {
    var e := Encode(n, c);
    var t := e + rest;
    EncodedBlockScan(n, c, rest);
    CollectCons(Hit(0, Match(n, c)), Scan(t, |e|));
    ConcatSuffix(e, rest);
    var hits := Scan(rest, 0);
    ScanFindsAll(rest, 0);
    FindAllSuffix(t, |e|, rest, 0, hits);
    ScanIsFindAll(t, |e|, ShiftHits(hits, |e|));
    CollectShift(hits, |e|);
  }

  /** A match-free stretch in front of a find-all list extends it. */
  lemma FindAllGap(text: string, lo: nat, mid: nat, hits: seq<Hit>)
    requires lo <= mid && NoMatchIn(text, lo, mid) && IsFindAll(text, mid, hits)
    ensures IsFindAll(text, lo, hits)
  {
    var hi := if hits == [] then |text| else hits[0].at;
    forall p: nat, m: Match | lo <= p < hi ensures !IsMatchAt(text, p, m) {
    }
    if hits != [] {
      FindAllConsGap(text, lo, hits[0], hits[1..]);
      assert [hits[0]] + hits[1..] == hits;
    }
  }

  /** No match starts where there is no `<`. */
  lemma NoMatchWithoutAngle(text: string, lo: nat, hi: nat)
    requires hi <= |text| && forall k :: lo <= k < hi ==> text[k] != '<'
    ensures NoMatchIn(text, lo, hi)
  {
    forall p: nat, m: Match | lo <= p < hi ensures !IsMatchAt(text, p, m) {
      EncodeAt(text, p, m.name, m.content);
    }
  }

  /** Prose without a `<` in front of a text does not change what it decodes to. */
  lemma PlainPrefix(pre: string, rest: string)
    requires forall k :: 0 <= k < |pre| ==> pre[k] != '<'
    ensures ParseTags(pre + rest) == ParseTags(rest)
  {
    var t := pre + rest;
    ConcatSuffix(pre, rest);
    var hits := Scan(rest, 0);
    ScanFindsAll(rest, 0);
    FindAllSuffix(t, |pre|, rest, 0, hits);
    NoMatchWithoutAngle(t, 0, |pre|);
    FindAllGap(t, 0, |pre|, ShiftHits(hits, |pre|));
    ScanIsFindAll(t, 0, ShiftHits(hits, |pre|));
    CollectShift(hits, |pre|);
  }

  /** Round trip: a single encoded block decodes to its name and stripped content. */
  lemma RoundTrip(n: string, c: string)
    requires IsWord(n) && !Occurs(Close(n), c)
    ensures ParseTags(Encode(n, c)) == map[n := Strip(c)]
  {
    BlockThenRest(n, c, "");
    assert Encode(n, c) + "" == Encode(n, c);
    assert ParseTags("") == map[];
  }

  /** Two adjacent blocks with different names both decode. */
  lemma AdjacentBlocks(x: string, a: string, y: string, b: string)
    requires IsWord(x) && !Occurs(Close(x), a)
    requires IsWord(y) && !Occurs(Close(y), b)
    requires x != y
    ensures ParseTags(Encode(x, a) + Encode(y, b)) == map[x := Strip(a), y := Strip(b)]
  {
    BlockThenRest(x, a, Encode(y, b));
    RoundTrip(y, b);
  }

  /** Two blocks with the same name: the later one's content is kept. */
  lemma DuplicateNameKeepsLast(n: string, a: string, b: string)
    requires IsWord(n) && !Occurs(Close(n), a) && !Occurs(Close(n), b)
    ensures ParseTags(Encode(n, a) + Encode(n, b)) == map[n := Strip(b)]
  {
    BlockThenRest(n, a, Encode(n, b));
    RoundTrip(n, b);
  }

  /**
   A block nested inside another is not reported on its own: the outer block's
   content is returned verbatim, inner tags included.
   */
  lemma NestedBlockNotReported(a: string, b: string, x: string)
    requires IsWord(a) && IsWord(b) && !Occurs(Close(a), Encode(b, x))
    ensures ParseTags(Encode(a, Encode(b, x))) == map[a := Encode(b, x)]
  {
    RoundTrip(a, Encode(b, x));
    var e := Encode(b, x);
    assert e[0] == '<' && e[|e| - 1] == '>';
    StripFixesStripped(e);
  }

  lemma InnerBlockHasNoOuterCloser(inner: string)
    requires inner == "<b>x</b>"
    ensures !Occurs(Close("a"), inner)
  {
    forall i | 0 <= i <= |inner| ensures !StartsAt(inner, i, Close("a")) {
      if i + 4 <= |inner| {
        assert inner[i..i + 4][2] == inner[i + 2] != 'a';
      }
    }
  }

  /** Spelling out the two blocks of the nested example. */
  lemma NestedExampleSpelled(inner: string, text: string)
    requires inner == "<b>x</b>" && text == "<a><b>x</b></a>"
    ensures Encode("b", "x") == inner && Encode("a", inner) == text
  {
    assert Open("b") == "<b>" && Close("b") == "</b>";
    assert Open("a") == "<a>" && Close("a") == "</a>";
  }

  /** `<a><b>x</b></a>` decodes to `{a: "<b>x</b>"}`. */
  lemma NestedExample(text: string)
    requires text == "<a><b>x</b></a>"
    ensures ParseTags(text) == map["a" := "<b>x</b>"]
  {
    var inner := "<b>x</b>";
    NestedExampleSpelled(inner, text);
    InnerBlockHasNoOuterCloser(inner);
    NestedBlockNotReported("a", "b", "x");
  }
}
