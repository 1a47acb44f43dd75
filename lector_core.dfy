/** js/lector-core.js: the pure helpers of the list viewer and of the
    chapter reader. The list viewer normalises each index item's path,
    orders the list by path, newest first, and labels each item; the reader
    formats a date in Spanish, compares paths and finds a chapter's
    neighbours in the books index. */
module LectorCore {
  import opened Strings
  import opened Utils
  import opened Sorting
  import BuildIndices

  // ============================================================ list viewer

  /** An item of a category index as the viewer reads it: the keys it
      consults, each possibly missing. */
  datatype Item = Item(
    path: Option<string>, file: Option<string>, href: Option<string>,
    date: Option<string>, time: Option<string>, title: Option<string>)

  /** An index record as the viewer sees it once the index is loaded. */
  function ItemOf(r: BuildIndices.Record): Item {
    Item(Some(r.path), None, None, Some(r.date), r.time, None)
  }

  /** `{...it, path: it.path || it.file || it.href || ''}` */
  function NormalizeItem(it: Item): (r: Item)
    ensures r.path.Some?
    ensures r.(path := it.path) == it
  {
    it.(path := Some(Or(it.path, Or(it.file, Or(it.href, "")))))
  }

  /** The key the list is ordered by: the item's path. */
  function ItemKey(it: Item): string {
    Or(it.path, "")
  }

  /** The path an item is listed under: its own when it has one, else its
      file, else its link, else ''. */
  lemma NormalizedPath(it: Item)
    ensures it.path.Some? && it.path.value != "" ==> ItemKey(NormalizeItem(it)) == it.path.value
    ensures Or(it.path, "") == "" && it.file.Some? && it.file.value != "" ==> ItemKey(NormalizeItem(it)) == it.file.value
    ensures Or(it.path, "") == "" && Or(it.file, "") == "" ==> ItemKey(NormalizeItem(it)) == Or(it.href, "")
  {
  }

  /** `items.map(...)` over the loaded list; a value that is not a list
      (or no list at all) gives the empty list. */
  function NormalizedItems(data: Option<seq<Item>>): (r: seq<Item>)
    ensures data.None? ==> r == []
    ensures data.Some? ==> |r| == |data.value|
    ensures data.Some? ==> forall k :: 0 <= k < |r| ==> r[k] == NormalizeItem(data.value[k])
  {
    if data.None? then [] else seq(|data.value|, k requires 0 <= k < |data.value| => NormalizeItem(data.value[k]))
  }

  /** The list preparation of the viewer's `init`: normalise every item's
      path, then sort in place by path, largest first. */
  method PrepareItems(data: Option<seq<Item>>) returns (items: seq<Item>)
    ensures multiset(items) == multiset(NormalizedItems(data))
    ensures NonIncreasing(items, ItemKey)
    ensures forall k :: 0 <= k < |items| ==> items[k].path.Some?
  {
    var normalized := NormalizedItems(data);
    var a := new Item[|normalized|](k requires 0 <= k < |normalized| => normalized[k]);
    assert a[..] == normalized;
    SortDescending(a, ItemKey);
    items := a[..];
    forall k | 0 <= k < |items|
      ensures items[k].path.Some?
    {
      assert items[k] in multiset(normalized);
    }
  }

  // ------------------------------------------------------------ list label

  /** The characters of `s` that are not white space, in order. */
  function NonSpace(s: string): (r: string)
    ensures |r| <= |s|
  {
    if s == [] then [] else (if IsSpace(s[0]) then [] else [s[0]]) + NonSpace(s[1..])
  }

  /** Every white-space character is a plain space and no two are
      adjacent. */
  predicate SingleSpaced(s: string) {
    (forall k :: 0 <= k < |s| && IsSpace(s[k]) ==> s[k] == ' ')
    && (forall k :: 0 <= k < |s| - 1 ==> !(IsSpace(s[k]) && IsSpace(s[k + 1])))
  }

  /** `s.replace(/\s+/g, ' ')`: every run of white space becomes one space. */
  function CollapseWs(s: string): (r: string)
    decreases |s|
    ensures SingleSpaced(r)
    ensures NonSpace(r) == NonSpace(s)
    ensures r == [] <==> s == []
    ensures s != [] && !IsSpace(s[0]) ==> r[0] == s[0]
  {
    if s == [] then []
    else if IsSpace(s[0]) then
      var rest := s[TrimOffset(s)..];
      SpaceRunDropped(s);
      [' '] + CollapseWs(rest)
    else
      [s[0]] + CollapseWs(s[1..])
  }

  /** A text that is already single-spaced is left as it is: the collapse
      only shortens runs and turns other white space into spaces. */
  lemma {:induction false} CollapseKeepsSingleSpaced(s: string)
    requires SingleSpaced(s)
    ensures CollapseWs(s) == s
    decreases |s|
  {
    if s != [] {
      InfixSingleSpaced(s, 1, |s|);
      CollapseKeepsSingleSpaced(s[1..]);
      if IsSpace(s[0]) {
        assert |s| > 1 ==> !IsSpace(s[1]);
        assert TrimOffset(s) == 1;
      }
      assert s == [s[0]] + s[1..];
    }
  }

  /** A run of white space before a character that is not white space, or
      before the end, becomes one space. */
  lemma CollapseRun(w: string, y: string)
    requires w != [] && AllSpace(w) && (y == [] || !IsSpace(y[0]))
    ensures CollapseWs(w + y) == [' '] + CollapseWs(y)
  {
    var s := w + y;
    var o := TrimOffset(s);
    assert o == |w| by {
      assert forall k :: 0 <= k < |w| ==> s[k] == w[k];
      if y != [] {
        assert s[|w|] == y[0];
      }
    }
    assert s[o..] == y;
  }

  /** A word without white space passes through the collapse unchanged. */
  lemma {:induction false} CollapseWord(x: string, y: string)
    requires NoSpace(x)
    ensures CollapseWs(x + y) == x + CollapseWs(y)
    decreases |x|
  {
    if x != [] {
      WordTail(x);
      CollapseWord(x[1..], y);
      ConsSplit(x, y);
      CollapseWordStep(x + y);
      assert CollapseWs(x + y) == [x[0]] + CollapseWs(x[1..] + y);
      assert CollapseWs(x[1..] + y) == x[1..] + CollapseWs(y);
      ConsAssoc(x, CollapseWs(y));
    } else {
      assert x + y == y;
    }
  }

  /** Dropping the first character of a concatenation with a non-empty
      front. */
  lemma ConsSplit(x: string, y: string)
    requires x != []
    ensures (x + y)[0] == x[0] && (x + y)[1..] == x[1..] + y
  {
  }

  /** Re-attaching the first character of a non-empty front. */
  lemma ConsAssoc(x: string, c: string)
    requires x != []
    ensures [x[0]] + (x[1..] + c) == x + c
  {
    assert x == [x[0]] + x[1..];
  }

  /** The tail of a word without white space has none either. */
  lemma WordTail(x: string)
    requires x != [] && NoSpace(x)
    ensures NoSpace(x[1..])
  {
    forall k | 0 <= k < |x| - 1 ensures !IsSpace(x[1..][k]) {
      assert x[1..][k] == x[k + 1];
    }
  }

  /** One step of the collapse over a character that is not white space. */
  lemma CollapseWordStep(s: string)
    requires s != [] && !IsSpace(s[0])
    ensures CollapseWs(s) == [s[0]] + CollapseWs(s[1..])
  {
  }

  /** A tab, a line break and a space between two words become one space. */
  lemma CollapseExample()
    ensures CollapseWs("a\t\n b") == "a b"
  {
    var run, a, b := "\t\n ", "a", "b";
    ExamplePieces(run, a, b);
    CollapseWord(b, []);
    CollapseRun(run, b);
    CollapseWord(a, run + b);
    ExampleJoin(run, a, b, CollapseWs([]));
  }

  /** The pieces of the example: a run of white space between two words. */
  lemma ExamplePieces(run: string, a: string, b: string)
    requires run == "\t\n " && a == "a" && b == "b"
    ensures AllSpace(run) && run != [] && NoSpace(a) && NoSpace(b) && !IsSpace(b[0])
  {
  }

  /** How the example text and its collapse are put together. */
  lemma ExampleJoin(run: string, a: string, b: string, e: string)
    requires run == "\t\n " && a == "a" && b == "b" && e == []
    ensures "a\t\n b" == a + (run + b)
    ensures a + ([' '] + (b + e)) == "a b"
  {
  }

  /** Two single-spaced texts that do not meet in two white-space
      characters make a single-spaced text. */
  lemma SingleSpacedConcat(x: string, y: string)
    requires SingleSpaced(x) && SingleSpaced(y)
    requires x == [] || y == [] || !IsSpace(x[|x| - 1]) || !IsSpace(y[0])
    ensures SingleSpaced(x + y)
  {
    var s := x + y;
    forall k | 0 <= k < |s| - 1 ensures !(IsSpace(s[k]) && IsSpace(s[k + 1])) {
      if k + 1 < |x| {
        assert s[k] == x[k] && s[k + 1] == x[k + 1];
      } else if k >= |x| {
        assert s[k] == y[k - |x|] && s[k + 1] == y[k + 1 - |x|];
      }
    }
  }

  /** Dropping a leading run of white space drops nothing else. */
  lemma SpaceRunDropped(s: string)
    requires s != [] && IsSpace(s[0])
    ensures 0 < TrimOffset(s) && NonSpace(s[TrimOffset(s)..]) == NonSpace(s)
    ensures s[TrimOffset(s)..] == [] || !IsSpace(s[TrimOffset(s)])
  {
    var o := TrimOffset(s);
    assert s == s[..o] + s[o..];
    NonSpaceConcat(s[..o], s[o..]);
    NonSpaceOfSpaces(s[..o]);
  }

  lemma {:induction false} NonSpaceConcat(a: string, b: string)
    ensures NonSpace(a + b) == NonSpace(a) + NonSpace(b)
  {
    if a == [] {
      assert a + b == b;
    } else {
      var t := a[1..];
      NonSpaceConcat(t, b);
      ConsSplit(a, b);
      NonSpaceStep(a + b);
      NonSpaceStep(a);
      Assoc3(if IsSpace(a[0]) then [] else [a[0]], NonSpace(t), NonSpace(b));
    }
  }

  /** One step of `NonSpace`. */
  lemma NonSpaceStep(s: string)
    requires s != []
    ensures NonSpace(s) == (if IsSpace(s[0]) then [] else [s[0]]) + NonSpace(s[1..])
  {
  }


  lemma {:induction false} NonSpaceOfSpaces(a: string)
    requires AllSpace(a)
    ensures NonSpace(a) == []
  {
    if a != [] {
      NonSpaceOfSpaces(a[1..]);
    }
  }

  /** `trim` drops white space only. */
  lemma TrimKeepsNonSpace(s: string)
    ensures NonSpace(Trim(s)) == NonSpace(s)
  {
    var o := TrimOffset(s);
    var m := TrimLimit(s, o, |s|);
    assert Trim(s) == s[o..m];
    assert s == s[..o] + (s[o..m] + s[m..]);
    SpacesAround(s[..o], s[o..m], s[m..]);
  }

  /** White space on either side adds nothing to the non-space text. */
  lemma SpacesAround(head: string, mid: string, tail: string)
    requires AllSpace(head) && AllSpace(tail)
    ensures NonSpace(head + (mid + tail)) == NonSpace(mid)
  {
    NonSpaceConcat(head, mid + tail);
    NonSpaceConcat(mid, tail);
    NonSpaceOfSpaces(head);
    NonSpaceOfSpaces(tail);
  }

  /** A part of a single-spaced text is single-spaced. */
  lemma InfixSingleSpaced(s: string, i: nat, j: nat)
    requires SingleSpaced(s) && i <= j <= |s|
    ensures SingleSpaced(s[i..j])
  {
    var t := s[i..j];
    forall k | 0 <= k < |t| - 1
      ensures !(IsSpace(t[k]) && IsSpace(t[k + 1]))
    {
      assert t[k] == s[i + k] && t[k + 1] == s[i + k + 1];
    }
  }

  const EmDash: char := '\U{2014}'

  /** The text of a list entry: date, time and `— title`, each only when
      present, joined by spaces, white-space runs collapsed and trimmed. */
  function ListLabel(it: Item): string {
    Trim(CollapseWs(Join([Or(it.date, ""), Or(it.time, ""), TitlePart(it.title)], ' ')))
  }

  /** `— title` when the title is present and not empty. */
  function TitlePart(title: Option<string>): string {
    if Or(title, "") != "" then [EmDash, ' '] + title.value else ""
  }

  /** A list label never starts or ends with white space, never holds two
      white-space characters in a row nor any but the plain space, and keeps
      every other character of the date, the time and the title, in that
      order. */
  lemma ListLabelShape(it: Item)
    ensures IsTrimmed(ListLabel(it)) && SingleSpaced(ListLabel(it))
    ensures NonSpace(ListLabel(it))
            == NonSpace(Or(it.date, "")) + NonSpace(Or(it.time, ""))
               + (if Or(it.title, "") != "" then [EmDash] + NonSpace(it.title.value) else "")
  {
    var joined := Join([Or(it.date, ""), Or(it.time, ""), TitlePart(it.title)], ' ');
    CollapsedAndTrimmed(joined);
    JoinThreeNonSpace(Or(it.date, ""), Or(it.time, ""), TitlePart(it.title));
    TitlePartNonSpace(it.title);
  }

  /** The label of an entry whose date and time are present and free of
      white space, and whose title, when present, is trimmed and
      single-spaced: date, time and `— title`, one space apart. */
  lemma ListLabelValue(it: Item, d: string, t: string)
    requires it.date == Some(d) && it.time == Some(t)
    requires d != [] && t != [] && NoSpace(d) && NoSpace(t)
    requires Or(it.title, "") != "" ==> IsTrimmed(it.title.value) && SingleSpaced(it.title.value)
    ensures ListLabel(it) == d + " " + t + (if Or(it.title, "") != "" then [' ', EmDash, ' '] + it.title.value else "")
  {
    ListLabelOfPieces(it);
    WordsOfTitledLabel(d, t, it.title);
  }

  /** The words of a present date and time and the title piece. */
  lemma WordsOfTitledLabel(d: string, t: string, title: Option<string>)
    requires d != [] && t != []
    ensures Words([d, t, TitlePart(title)])
            == d + " " + t + (if Or(title, "") != "" then [' ', EmDash, ' '] + title.value else "")
  {
    var tp := TitlePart(title);
    WordsOfTwo(t, tp);
    WordsOfThree(d, t, tp);
    if Or(title, "") != "" {
      assert tp == [EmDash, ' '] + title.value;
      LabelAssoc(d, t, title.value);
    } else {
      assert tp == [];
    }
  }


  /** Re-association of a label with a title. */
  lemma LabelAssoc(d: string, t: string, ti: string)
    ensures d + [' '] + (t + [' '] + ([EmDash, ' '] + ti)) == d + " " + t + [' ', EmDash, ' '] + ti
  {
  }


  /** The three label pieces joined by single spaces. */
  lemma LabelJoin(d: string, t: string, tp: string)
    ensures Join([d, t, tp], ' ') == d + [' '] + (t + [' '] + tp)
  {
    assert Join([t, tp], ' ') == t + [' '] + tp by {
      assert [t, tp][1..] == [tp];
    }
    assert [d, t, tp][1..] == [t, tp];
  }





  /** Two single-spaced pieces, each bordered by non-white characters, stay
      single-spaced when joined by one space. */
  lemma SpaceJoinSingleSpaced(x: string, y: string)
    requires SingleSpaced(x) && SingleSpaced(y) && x != [] && y != []
    requires !IsSpace(x[|x| - 1]) && !IsSpace(y[0])
    ensures SingleSpaced(x + [' '] + y)
  {
    WordSingleSpaced([' ']);
    SingleSpacedConcat(x, [' ']);
    SingleSpacedConcat(x + [' '], y);
  }


  /** The pieces that are not empty, joined by single spaces; '' when
      every piece is empty. */
  function Words(pieces: seq<string>): (r: string)
    ensures r == [] <==> forall k :: 0 <= k < |pieces| ==> pieces[k] == []
  {
    if pieces == [] then []
    else if pieces[0] == [] then Words(pieces[1..])
    else if Words(pieces[1..]) == [] then pieces[0]
    else pieces[0] + [' '] + Words(pieces[1..])
  }

  /** Two pieces: the one that is not empty, or both one space apart. */
  lemma WordsOfTwo(a: string, b: string)
    ensures Words([a, b]) == (if a == [] then b else if b == [] then a else a + [' '] + b)
  {
    assert [a, b][1..] == [b];
    assert [b][1..] == [];
  }

  /** Three pieces: the first, when not empty, before the words of the
      other two. */
  lemma WordsOfThree(a: string, b: string, c: string)
    ensures Words([a, b, c])
            == (if a == [] then Words([b, c]) else if Words([b, c]) == [] then a else a + [' '] + Words([b, c]))
  {
    assert [a, b, c][1..] == [b, c];
  }

  /** The label of an entry whose date and time hold no white space and
      whose title, when present, is trimmed and single-spaced: the pieces
      among date, time and `— title` that are not empty, one space apart.
      An entry without a time is labelled `date — title`, or `date`. */
  lemma ListLabelOfPieces(it: Item)
    requires NoSpace(Or(it.date, "")) && NoSpace(Or(it.time, ""))
    requires Or(it.title, "") != "" ==> IsTrimmed(it.title.value) && SingleSpaced(it.title.value)
    ensures ListLabel(it) == Words([Or(it.date, ""), Or(it.time, ""), TitlePart(it.title)])
  {
    var d, t, tp := Or(it.date, ""), Or(it.time, ""), TitlePart(it.title);
    LabelJoin(d, t, tp);
    TitlePieceClean(it.title);
    LabelCollapse(d, t, tp);
    LabelTrim(d, t, tp);
  }

  /** The title piece is empty, or trimmed, single-spaced and led by the
      dash. */
  lemma TitlePieceClean(title: Option<string>)
    requires Or(title, "") != "" ==> IsTrimmed(title.value) && SingleSpaced(title.value)
    ensures var tp := TitlePart(title);
      tp == [] || (tp[0] == EmDash && IsTrimmed(tp) && SingleSpaced(tp))
  {
    if Or(title, "") != "" {
      var ti := title.value;
      WordSingleSpaced([EmDash]);
      SpaceJoinSingleSpaced([EmDash], ti);
      assert [EmDash, ' '] + ti == [EmDash] + [' '] + ti;
    }
  }

  /** The collapse of the joined pieces: the date, one space, the time and
      a space when there is a time, then the title piece. */
  lemma LabelCollapse(d: string, t: string, tp: string)
    requires NoSpace(d) && NoSpace(t)
    requires tp == [] || (tp[0] == EmDash && SingleSpaced(tp))
    ensures CollapseWs(d + [' '] + (t + [' '] + tp)) == d + [' '] + (if t == [] then [] else t + [' ']) + tp
  {
    var rest := [' '] + (t + [' '] + tp);
    var m: string := if t == [] then [] else t + [' '];
    Assoc3(d, [' '], t + [' '] + tp);
    CollapseWord(d, rest);
    if t == [] {
      LabelTailWithoutTime(tp);
    } else {
      LabelTailWithTime(t, tp);
    }
    Assoc4(d, [' '], m, tp);
  }

  /** After the date, the two spaces around a missing time become one. */
  lemma LabelTailWithoutTime(tp: string)
    requires tp == [] || (tp[0] == EmDash && SingleSpaced(tp))
    ensures CollapseWs([' '] + ([] + [' '] + tp)) == [' '] + [] + tp
  {
    assert [' '] + ([] + [' '] + tp) == [' ', ' '] + tp;
    assert [' '] + [] + tp == [' '] + tp;
    CollapseRun([' ', ' '], tp);
    CollapseKeepsSingleSpaced(tp);
  }

  /** After the date, a time keeps one space on each side. */
  lemma LabelTailWithTime(t: string, tp: string)
    requires t != [] && NoSpace(t)
    requires tp == [] || (tp[0] == EmDash && SingleSpaced(tp))
    ensures CollapseWs([' '] + (t + [' '] + tp)) == [' '] + (t + [' ']) + tp
  {
    var u := [' '] + tp;
    SpacedTitleKept(tp);
    SpacedWordKept(t, u);
    Assoc3(t, [' '], tp);
    SpacedAssoc(t, tp);
  }

  /** A space before the title piece survives the collapse unchanged. */
  lemma SpacedTitleKept(tp: string)
    requires tp == [] || (tp[0] == EmDash && SingleSpaced(tp))
    ensures CollapseWs([' '] + tp) == [' '] + tp
  {
    CollapseRun([' '], tp);
    CollapseKeepsSingleSpaced(tp);
  }

  /** A space and a word before a text that the collapse keeps, and that
      starts with a space, are kept too. */
  lemma SpacedWordKept(t: string, u: string)
    requires t != [] && NoSpace(t) && CollapseWs(u) == u
    ensures CollapseWs([' '] + (t + u)) == [' '] + (t + u)
  {
    CollapseWord(t, u);
    ConsSplit(t, u);
    CollapseRun([' '], t + u);
  }


  /** Re-association of a word between two spaces. */
  lemma SpacedAssoc(t: string, tp: string)
    ensures [' '] + (t + ([' '] + tp)) == [' '] + (t + [' ']) + tp
  {
  }

  /** Re-association of three pieces. */
  lemma Assoc3(a: string, b: string, c: string)
    ensures a + b + c == a + (b + c)
  {
  }

  /** Re-association of four pieces. */
  lemma Assoc4(a: string, b: string, c: string, e: string)
    ensures a + (b + (c + e)) == a + b + c + e
    ensures a + ((b + c) + e) == a + b + c + e
  {
  }

  /** Trimming the collapsed pieces leaves the non-empty pieces, one space
      apart. */
  lemma LabelTrim(d: string, t: string, tp: string)
    requires NoSpace(d) && NoSpace(t) && IsTrimmed(tp)
    ensures Trim(d + [' '] + (if t == [] then [] else t + [' ']) + tp) == Words([d, t, tp])
  {
    WordsOfTwo(t, tp);
    WordsOfThree(d, t, tp);
    if d == [] {
      LabelTrimWithoutDate(d, t, tp);
    } else {
      LabelTrimWithDate(d, t, tp);
    }
  }

  /** Without a date, the leading space goes and the words of the time and
      the title piece stay. */
  lemma LabelTrimWithoutDate(d: string, t: string, tp: string)
    requires d == [] && NoSpace(t) && IsTrimmed(tp)
    ensures Trim(d + [' '] + (if t == [] then [] else t + [' ']) + tp)
            == (if t == [] then tp else if tp == [] then t else t + [' '] + tp)
  {
    var c := d + [' '] + (if t == [] then [] else t + [' ']) + tp;
    if t == [] && tp == [] {
      assert c == [' '];
    } else if t == [] {
      assert c == [' '] + tp + [];
      TrimPadded([' '], tp, []);
    } else if tp == [] {
      assert c == [' '] + t + [' '];
      TrimPadded([' '], t, [' ']);
    } else {
      var w := t + [' '] + tp;
      assert c == [' '] + w + [];
      assert w[0] == t[0] && w[|w| - 1] == tp[|tp| - 1];
      TrimPadded([' '], w, []);
    }
  }

  /** With a date, the text already starts with it and at most a trailing
      space goes. */
  lemma LabelTrimWithDate(d: string, t: string, tp: string)
    requires d != [] && NoSpace(d) && NoSpace(t) && IsTrimmed(tp)
    ensures Trim(d + [' '] + (if t == [] then [] else t + [' ']) + tp)
            == (if t == [] && tp == [] then d
                else d + [' '] + (if t == [] then tp else if tp == [] then t else t + [' '] + tp))
  {
    var c := d + [' '] + (if t == [] then [] else t + [' ']) + tp;
    if t == [] && tp == [] {
      assert c == [] + d + [' '];
      TrimPadded([], d, [' ']);
    } else if tp == [] {
      var e := d + [' '] + t;
      assert c == [] + e + [' '];
      assert e[0] == d[0] && e[|e| - 1] == t[|t| - 1];
      TrimPadded([], e, [' ']);
    } else {
      var w := if t == [] then tp else t + [' '] + tp;
      var e := d + [' '] + w;
      assert c == [] + e + [];
      assert e[0] == d[0] && e[|e| - 1] == tp[|tp| - 1];
      TrimPadded([], e, []);
    }
  }

  /** Trimming drops exactly the white space around a trimmed text. */
  lemma TrimPadded(p: string, x: string, q: string)
    requires AllSpace(p) && AllSpace(q) && x != [] && IsTrimmed(x)
    ensures Trim(p + x + q) == x
  {
    var s := p + x + q;
    var o := TrimOffset(s);
    assert s[|p|] == x[0];
    var m := TrimLimit(s, o, |s|);
    assert s[|p| + |x| - 1] == x[|x| - 1];
    assert s[o..m] == x;
  }

  /** A text without white space is single-spaced, and so is one space. */
  lemma WordSingleSpaced(w: string)
    requires NoSpace(w) || w == [' ']
    ensures SingleSpaced(w)
  {
  }


  lemma TitlePartNonSpace(title: Option<string>)
    ensures NonSpace(TitlePart(title)) == if Or(title, "") != "" then [EmDash] + NonSpace(title.value) else ""
  {
    if Or(title, "") != "" {
      assert TitlePart(title) == [EmDash] + ([' '] + title.value);
      NonSpaceConcat([EmDash], [' '] + title.value);
      NonSpaceConcat([' '], title.value);
      NonSpaceOfSpaces([' ']);
      assert NonSpace([EmDash]) == [EmDash];
    }
  }

  /** Collapsing white-space runs and then trimming gives a trimmed,
      single-spaced text with the same other characters. */
  lemma CollapsedAndTrimmed(s: string)
    ensures IsTrimmed(Trim(CollapseWs(s))) && SingleSpaced(Trim(CollapseWs(s)))
    ensures NonSpace(Trim(CollapseWs(s))) == NonSpace(s)
  {
    var c := CollapseWs(s);
    var o := TrimOffset(c);
    var m := TrimLimit(c, o, |c|);
    assert Trim(c) == c[o..m];
    InfixSingleSpaced(c, o, m);
    TrimKeepsNonSpace(c);
  }

  lemma JoinThreeNonSpace(a: string, b: string, c: string)
    ensures NonSpace(Join([a, b, c], ' ')) == NonSpace(a) + NonSpace(b) + NonSpace(c)
  {
    assert Join([b, c], ' ') == b + [' '] + c by {
      assert [b, c][1..] == [c];
    }
    assert Join([a, b, c], ' ') == a + [' '] + (b + [' '] + c) by {
      assert [a, b, c][1..] == [b, c];
    }
    SpaceSeparated(b, c);
    SpaceSeparated(a, b + [' '] + c);
  }

  /** A separating space adds nothing to the characters that are not
      white space. */
  lemma SpaceSeparated(x: string, y: string)
    ensures NonSpace(x + [' '] + y) == NonSpace(x) + NonSpace(y)
  {
    NonSpaceConcat(x + [' '], y);
    NonSpaceConcat(x, [' ']);
    NonSpaceOfSpaces([' ']);
  }

  // ----------------------------------------------------------------- audio

  /** `/\.(mp3|m4a|ogg|wav)$/i` on `item.path || item.file || ''`. */
  predicate IsAudio(it: Item) {
    IsAudioPath(Or(it.path, Or(it.file, "")))
  }

  predicate IsAudioPath(p: string) {
    EndsWithIgnoreCase(p, ".mp3") || EndsWithIgnoreCase(p, ".m4a")
    || EndsWithIgnoreCase(p, ".ogg") || EndsWithIgnoreCase(p, ".wav")
  }

  /** The audio test with every extension the index builder accepts as
      audio, `.opus` included. */
  predicate IsAudioWithOpus(it: Item) {
    var p := Or(it.path, Or(it.file, ""));
    exists ext :: ext in BuildIndices.AudioExtensions && EndsWithIgnoreCase(p, ext)
  }

  /** The characters the known extensions are written with: lower-case
      ASCII letters, digits and the dot. On these, lower-casing a name and
      the `i` flag of a regular expression agree. */
  predicate FoldSafe(ext: string) {
    forall k :: 0 <= k < |ext| ==> 'a' <= ext[k] <= 'z' || '0' <= ext[k] <= '9' || ext[k] == '.'
  }

  lemma KnownExtensionsFoldSafe(ext: string)
    requires ext in BuildIndices.AudioExtensions || ext in BuildIndices.HtmlExtensions
    ensures FoldSafe(ext)
  {
  }

  /** A character that lower-cases to a lower-case ASCII letter, a digit or
      a dot is that character up to ASCII case. */
  lemma LowerIsFold(c: char, d: char)
    requires LowerChar(c) == d && ('a' <= d <= 'z' || '0' <= d <= '9' || d == '.')
    ensures AsciiFold(c) == d
  {
  }

  /** A name whose extension lower-cases to `ext` ends in `ext` up to ASCII
      case, and so does its index path. */
  lemma ExtensionEnds(cat: BuildIndices.Category, name: string, ext: string)
    requires FoldSafe(ext) && Lower(BuildIndices.ExtName(name)) == ext
    ensures EndsWithIgnoreCase(BuildIndices.PathOf(cat, name), ext)
  {
    var e := BuildIndices.ExtName(name);
    var p := BuildIndices.PathOf(cat, name);
    var n := |p| - |name|;
    assert p[n..] == name;
    forall k | 0 <= k < |ext|
      ensures AsciiFold(p[|p| - |ext| + k]) == ext[k]
    {
      assert e[k] == name[|name| - |e| + k];
      assert p[|p| - |ext| + k] == e[k];
      LowerIsFold(e[k], ext[k]);
    }
  }

  /** A text that ends in `lit` up to ASCII case ends in a character that
      folds to the last character of `lit`. */
  lemma LastFold(p: string, lit: string)
    ensures EndsWithIgnoreCase(p, lit) && lit != [] ==> AsciiFold(p[|p| - 1]) == lit[|lit| - 1]
  {
    if EndsWithIgnoreCase(p, lit) && lit != [] {
      assert |p| - |lit| + (|lit| - 1) == |p| - 1;
    }
  }

  /** The thoughts category's entries as the viewer lists them: an entry is
      played as audio, under the test with `.opus`, exactly when the index
      builder accepted it as audio. */
  lemma AudioEntriesPlay(e: BuildIndices.Entry)
    requires BuildIndices.BuildRecord(BuildIndices.Pensamientos, e).Some?
    ensures IsAudioWithOpus(ItemOf(BuildIndices.BuildRecord(BuildIndices.Pensamientos, e).value))
            <==> Lower(BuildIndices.ExtName(e.name)) in BuildIndices.AudioExtensions
  {
    var ext := Lower(BuildIndices.ExtName(e.name));
    var p := BuildIndices.PathOf(BuildIndices.Pensamientos, e.name);
    assert Or(ItemOf(BuildIndices.BuildRecord(BuildIndices.Pensamientos, e).value).path, "") == p;
    KnownExtensionsFoldSafe(ext);
    ExtensionEnds(BuildIndices.Pensamientos, e.name, ext);
    if ext in BuildIndices.HtmlExtensions {
      HtmlIsNotAudio(p, ext);
    }
  }

  /** A path ending in an HTML extension ends in no audio extension. */
  lemma HtmlIsNotAudio(p: string, h: string)
    requires h in BuildIndices.HtmlExtensions && EndsWithIgnoreCase(p, h)
    ensures forall ext :: ext in BuildIndices.AudioExtensions ==> !EndsWithIgnoreCase(p, ext)
  {
    LastFold(p, h);
    forall ext | ext in BuildIndices.AudioExtensions
      ensures !EndsWithIgnoreCase(p, ext)
    {
      LastFold(p, ext);
    }
  }

  /** As written, an `.opus` export (the format of the audio notes the index
      builder parses) is listed as text rather than played. */
  lemma OpusNotPlayed(e: BuildIndices.Entry)
    requires e.isFile && Lower(BuildIndices.ExtName(e.name)) == ".opus"
    ensures BuildIndices.BuildRecord(BuildIndices.Pensamientos, e).Some?
    ensures !IsAudio(ItemOf(BuildIndices.BuildRecord(BuildIndices.Pensamientos, e).value))
  {
    assert ".opus" in BuildIndices.AudioExtensions;
    var p := BuildIndices.PathOf(BuildIndices.Pensamientos, e.name);
    KnownExtensionsFoldSafe(".opus");
    ExtensionEnds(BuildIndices.Pensamientos, e.name, ".opus");
    OpusPathNotAudio(p);
  }

  lemma OpusPathNotAudio(p: string)
    requires EndsWithIgnoreCase(p, ".opus")
    ensures !IsAudioPath(p)
  {
    LastFold(p, ".opus");
    LastFold(p, ".mp3");
    LastFold(p, ".m4a");
    LastFold(p, ".ogg");
    LastFold(p, ".wav");
  }

  // ========================================================= chapter reader

  // -------------------------------------------------------- fmtFechaBonita

  const Meses: seq<string> :=
    ["enero", "febrero", "marzo", "abril", "mayo", "junio", "julio", "agosto",
     "septiembre", "octubre", "noviembre", "diciembre"]

  /** `meses[mo]`, rendered into a template: `undefined` outside the list. */
  function MonthName(mo: int): (r: string)
    ensures r != [] && forall k :: 0 <= k < |r| ==> 'a' <= r[k] <= 'z'
  {
    if 0 <= mo < 12 then Meses[mo] else "undefined"
  }

  /** `parseInt` of the two digits at `i`. */
  function PairValue(s: string, i: nat): (n: nat)
    requires DigitPairAt(s, i)
    ensures n < 100
  {
    DigitValue(s[i]) * 10 + DigitValue(s[i + 1])
  }

  /** `${day} de ${meses[mo]}` */
  function DayMonth(day: nat, mo: int): string {
    NatToString(day) + " de " + MonthName(mo)
  }

  /** The day and the month of the first date in `s`, as `parseInt` reads
      their two digits. */
  function FirstDay(s: string): (n: nat)
    requires FirstDateFrom(s, 0).Some?
    ensures n < 100
  {
    PairValue(s, FirstDateFrom(s, 0).value + 8)
  }

  function FirstMonth(s: string): (n: nat)
    requires FirstDateFrom(s, 0).Some?
    ensures n < 100
  {
    PairValue(s, FirstDateFrom(s, 0).value + 5)
  }

  /** `fmtFechaBonita`: the first `\d{4}-\d{2}-\d{2}` in the text as
      "<day> de <month>", the day without leading zeros; without such a date,
      the text trimmed. */
  function FmtFechaBonita(x: Option<string>): string {
    var s := Or(x, "");
    if FirstDateFrom(s, 0).None? then Trim(s) else DayMonth(FirstDay(s), FirstMonth(s) - 1)
  }

  /** `16 de octubre`, whatever text follows the date. */
  lemma FechaBonitaExample(s: string)
    requires DateAt(s, 0) && s[5..10] == "10-16"
    ensures FmtFechaBonita(Some(s)) == "16 de octubre"
  {
    assert FirstDateFrom(s, 0) == Some(0);
    assert s[5] == '1' && s[6] == '0' && s[8] == '1' && s[9] == '6';
    assert FirstDay(s) == 16 && FirstMonth(s) == 10;
    FechaBonitaOfDate(s);
    SixteenOctober();
  }

  /** A month `00` or above `12` falls outside the month names, and the
      template renders the missing name as `undefined`. */
  lemma FechaBonitaMonthOutOfRange(s: string)
    requires FirstDateFrom(s, 0).Some? && !(1 <= FirstMonth(s) <= 12)
    ensures FmtFechaBonita(Some(s)) == NatToString(FirstDay(s)) + " de undefined"
  {
    FechaBonitaOfDate(s);
    UndefinedMonth(FirstDay(s), FirstMonth(s) - 1);
  }

  lemma UndefinedMonth(day: nat, mo: int)
    requires !(0 <= mo < 12)
    ensures DayMonth(day, mo) == NatToString(day) + " de undefined"
  {
    var d := NatToString(day);
    assert d + " de " + "undefined" == d + " de undefined";
  }

  lemma SixteenOctober()
    ensures DayMonth(16, 9) == "16 de octubre"
  {
    assert NatToString(16) == "16";
  }

  /** Different days or months in range give different texts: the day and
      the month can be read back from the formatted date. */
  lemma FechaBonitaInjective(a: string, b: string)
    requires FirstDateFrom(a, 0).Some? && FirstDateFrom(b, 0).Some?
    requires 1 <= FirstMonth(a) <= 12 && 1 <= FirstMonth(b) <= 12
    requires FmtFechaBonita(Some(a)) == FmtFechaBonita(Some(b))
    ensures FirstDay(a) == FirstDay(b) && FirstMonth(a) == FirstMonth(b)
  {
    FechaBonitaOfDate(a);
    FechaBonitaOfDate(b);
    DayMonthInjective(FirstDay(a), FirstDay(b), FirstMonth(a) - 1, FirstMonth(b) - 1);
  }

  lemma FechaBonitaOfDate(s: string)
    requires FirstDateFrom(s, 0).Some?
    ensures FmtFechaBonita(Some(s)) == DayMonth(FirstDay(s), FirstMonth(s) - 1)
  {
    assert Or(Some(s), "") == s;
  }

  lemma DayMonthInjective(d1: nat, d2: nat, m1: int, m2: int)
    requires 0 <= m1 < 12 && 0 <= m2 < 12 && DayMonth(d1, m1) == DayMonth(d2, m2)
    ensures d1 == d2 && m1 == m2
  {
    DayMonthParts(d1, d2, m1, m2);
    NatToStringRoundTrip(d1);
    NatToStringRoundTrip(d2);
    MesesDistinct(m1, m2);
  }

  lemma DayMonthParts(d1: nat, d2: nat, m1: int, m2: int)
    requires DayMonth(d1, m1) == DayMonth(d2, m2)
    ensures NatToString(d1) == NatToString(d2) && MonthName(m1) == MonthName(m2)
  {
    DigitsDeWord(NatToString(d1), NatToString(d2), MonthName(m1), MonthName(m2));
  }

  lemma DigitsDeWord(x: string, y: string, a: string, b: string)
    requires AllDigits(x) && AllDigits(y) && x + " de " + a == y + " de " + b
    ensures x == y && a == b
  {
    var u, v := " de " + a, " de " + b;
    assert x + " de " + a == x + u;
    assert y + " de " + b == y + v;
    DigitsThenSpace(x, y, u, v);
    assert a == u[4..] && b == v[4..];
  }

  /** Two texts made of digits followed by a space-led rest are equal only
      when the digits and the rests are. */
  lemma DigitsThenSpace(x: string, y: string, u: string, v: string)
    requires AllDigits(x) && AllDigits(y) && u != [] && v != [] && u[0] == ' ' && v[0] == ' '
    requires x + u == y + v
    ensures x == y && u == v
  {
    var n := if |x| < |y| then |x| else |y|;
    assert (x + u)[n] == (y + v)[n];
    assert |x| == |y|;
    assert x == (x + u)[..|x|] && y == (y + v)[..|y|];
    assert u == (x + u)[|x|..] && v == (y + v)[|y|..];
  }

  lemma MesesDistinct(i: int, j: int)
    requires 0 <= i < 12 && 0 <= j < 12 && Meses[i] == Meses[j]
    ensures i == j
  {
  }

  /** Formatting a formatted date changes nothing. */
  lemma FechaBonitaIdempotent(x: Option<string>)
    ensures FmtFechaBonita(Some(FmtFechaBonita(x))) == FmtFechaBonita(x)
  {
    var s := Or(x, "");
    var r := FmtFechaBonita(x);
    if FirstDateFrom(s, 0).None? {
      TrimmedHasNoDate(s);
    } else {
      var day := NatToString(FirstDay(s));
      var month := MonthName(FirstMonth(s) - 1);
      NatToStringLength(FirstDay(s), 2);
      FormattedHasNoDate(day, month);
      FormattedIsTrimmed(day, month);
    }
    FormattedIsFixed(r);
  }

  /** A trimmed text holding no date is printed as it is. */
  lemma FormattedIsFixed(r: string)
    requires FirstDateFrom(r, 0).None? && IsTrimmed(r)
    ensures FmtFechaBonita(Some(r)) == r
  {
    assert Or(Some(r), "") == r;
    TrimOfTrimmed(r);
  }


  /** Trimming a text without a date leaves a text without a date. */
  lemma TrimmedHasNoDate(s: string)
    requires FirstDateFrom(s, 0).None?
    ensures FirstDateFrom(Trim(s), 0).None?
  {
    NoDateInInfix(s, Trim(s), TrimOffset(s));
  }

  /** An infix of a text holding no date holds none. */
  lemma NoDateInInfix(s: string, t: string, o: nat)
    requires o + |t| <= |s| && t == s[o..o + |t|] && FirstDateFrom(s, 0).None?
    ensures FirstDateFrom(t, 0).None?
  {
    if FirstDateFrom(t, 0).Some? {
      DateInInfix(s, o, |t|, FirstDateFrom(t, 0).value);
    }
  }


  lemma DateInInfix(s: string, o: nat, n: nat, k: nat)
    requires o + n <= |s| && DateAt(s[o..o + n], k)
    ensures DateAt(s, o + k)
  {
  }

  /** `<day> de <month>` holds at most two digits, so no date. */
  lemma FormattedHasNoDate(day: string, month: string)
    requires 1 <= |day| <= 2 && AllDigits(day)
    requires forall k :: 0 <= k < |month| ==> 'a' <= month[k] <= 'z'
    ensures FirstDateFrom(day + " de " + month, 0).None?
  {
    var r := day + " de " + month;
    forall k | 0 <= k
      ensures !DateAt(r, k)
    {
      NoDigitAfterDay(day, month, k + 2);
    }
  }

  /** Past the day, `<day> de <month>` holds no digit. */
  lemma NoDigitAfterDay(day: string, month: string, i: nat)
    requires |day| <= i
    requires forall k :: 0 <= k < |month| ==> 'a' <= month[k] <= 'z'
    ensures i < |day + " de " + month| ==> !IsDigit((day + " de " + month)[i])
  {
    var r := day + " de " + month;
    if i < |r| {
      if i < |day| + 4 {
        assert r[i] == " de "[i - |day|];
      } else {
        assert r[i] == month[i - |day| - 4];
      }
    }
  }

  lemma FormattedIsTrimmed(day: string, month: string)
    requires 1 <= |day| && AllDigits(day)
    requires month != [] && forall k :: 0 <= k < |month| ==> 'a' <= month[k] <= 'z'
    ensures IsTrimmed(day + " de " + month)
  {
    var r := day + " de " + month;
    assert r[0] == day[0];
    assert r[|r| - 1] == month[|month| - 1];
  }

  /** A trimmed text is its own trim. */
  lemma TrimOfTrimmed(r: string)
    requires IsTrimmed(r)
    ensures Trim(r) == r
  {
    if r != [] {
      assert TrimOffset(r) == 0;
      assert TrimLimit(r, 0, |r|) == |r|;
      assert r[0..|r|] == r;
    }
  }

  // -------------------------------------------------------------- samePath

  /** `s.replace(/^\/+/, '')` */
  function StripSlashes(s: string): (r: string)
    ensures r == [] || r[0] != '/'
  {
    if s != [] && s[0] == '/' then StripSlashes(s[1..]) else s
  }

  /** `s.replace(/^\.\/+/, '')` */
  function StripDotSlashes(s: string): string {
    if |s| >= 2 && s[0] == '.' && s[1] == '/' then StripSlashes(s[1..]) else s
  }

  /** A path as `samePath` compares it. */
  function NormPath(s: string): (r: string)
    ensures r == [] || r[0] != '/'
  {
    StripSlashes(StripDotSlashes(s))
  }

  /** `samePath(a, b)`, with `decodeURIComponent` given as `decode`. */
  predicate SamePath(a: Option<string>, b: Option<string>, decode: string -> string) {
    NormPath(decode(Or(a, ""))) == NormPath(decode(Or(b, "")))
  }

  /** `n` slashes. */
  function Slashes(n: nat): (r: string)
    ensures |r| == n && forall k :: 0 <= k < n ==> r[k] == '/'
  {
    seq(n, _ => '/')
  }

  /** A path that starts with neither `/` nor `./` is compared as itself. */
  lemma NormPlain(p: string)
    requires p == [] || p[0] != '/'
    requires !(|p| >= 2 && p[0] == '.' && p[1] == '/')
    ensures NormPath(p) == p
  {
  }

  /** Any run of leading slashes is dropped, and only that. */
  lemma {:induction false} SlashRunDropped(n: nat, p: string)
    requires p == [] || p[0] != '/'
    ensures StripSlashes(Slashes(n) + p) == p
    decreases n
  {
    if n == 0 {
      assert Slashes(n) + p == p;
    } else {
      var x := Slashes(n) + p;
      assert x[0] == '/' && x[1..] == Slashes(n - 1) + p;
      SlashRunDropped(n - 1, p);
    }
  }

  /** One or more leading `/` make no difference to a path. */
  lemma NormSlashes(n: nat, p: string)
    requires n >= 1 && (p == [] || p[0] != '/')
    ensures NormPath(Slashes(n) + p) == p
  {
    var x := Slashes(n) + p;
    assert x[0] == '/';
    assert StripDotSlashes(x) == x;
    SlashRunDropped(n, p);
  }

  /** Nor does a leading `.` followed by one or more `/`. */
  lemma NormDotSlashes(n: nat, p: string)
    requires n >= 1 && (p == [] || p[0] != '/')
    ensures NormPath("." + Slashes(n) + p) == p
  {
    var x := "." + Slashes(n) + p;
    assert x[0] == '.' && x[1] == '/' && x[1..] == Slashes(n) + p;
    SlashRunDropped(n, p);
    assert StripDotSlashes(x) == p;
  }

  /** Decoding that leaves every text as it is. */
  function NoDecoding(s: string): string { s }

  /** Without percent-escapes, `./data/x` (with any number of slashes) is
      the same path as `data/x`... */
  lemma DotSlashSamePath(n: nat, p: string)
    requires n >= 1 && (p == [] || p[0] != '/')
    requires !(|p| >= 2 && p[0] == '.' && p[1] == '/')
    ensures SamePath(Some("." + Slashes(n) + p), Some(p), NoDecoding)
  {
    NormDotSlashes(n, p);
    NormPlain(p);
  }

  /** ... and so is `/data/x`, `//data/x` and so on. */
  lemma SlashSamePath(n: nat, p: string)
    requires n >= 1 && (p == [] || p[0] != '/')
    requires !(|p| >= 2 && p[0] == '.' && p[1] == '/')
    ensures SamePath(Some(Slashes(n) + p), Some(p), NoDecoding)
  {
    NormSlashes(n, p);
    NormPlain(p);
  }

  /** `samePath` compares normalised texts, so it is an equivalence:
      reflexive, symmetric and transitive. */
  lemma SamePathEquivalence(a: Option<string>, b: Option<string>, c: Option<string>, decode: string -> string)
    ensures SamePath(a, a, decode)
    ensures SamePath(a, b, decode) <==> SamePath(b, a, decode)
    ensures SamePath(a, b, decode) && SamePath(b, c, decode) ==> SamePath(a, c, decode)
  {
  }

  /** A missing path is the same as the empty one. */
  lemma MissingPathIsEmpty()
    ensures SamePath(None, Some(""), NoDecoding)
  {
  }

  // -------------------------------------------------------- chapter nav

  /** The test `findIndex` applies to each record. */
  predicate IsChapter(r: BuildIndices.Record, src: string, decode: string -> string) {
    SamePath(Some(r.path), Some(src), decode)
  }

  /** `lista.findIndex(it => samePath(it.path, src))`, searching from `i`:
      the first matching position, or -1 when none matches. */
  function FindIndex(lista: seq<BuildIndices.Record>, src: string, decode: string -> string, i: nat := 0): (r: int)
    requires i <= |lista|
    decreases |lista| - i
    ensures r == -1 || i <= r < |lista|
  {
    if i == |lista| then -1
    else if IsChapter(lista[i], src, decode) then i
    else FindIndex(lista, src, decode, i + 1)
  }

  /** What `findIndex` finds is the first record from `i` on that is the
      chapter, and -1 means none is. */
  lemma {:induction false} FindIndexFirst(lista: seq<BuildIndices.Record>, src: string, decode: string -> string, i: nat)
    requires i <= |lista|
    decreases |lista| - i
    ensures var r := FindIndex(lista, src, decode, i);
      && (r >= 0 ==> IsChapter(lista[r], src, decode))
      && (r >= 0 ==> forall k :: i <= k < r ==> !IsChapter(lista[k], src, decode))
      && (r == -1 <==> forall k :: i <= k < |lista| ==> !IsChapter(lista[k], src, decode))
  {
    if i < |lista| && !IsChapter(lista[i], src, decode) {
      FindIndexFirst(lista, src, decode, i + 1);
    }
  }

  /** The chapters the reader's buttons lead to. */
  datatype Nav = Nav(prev: Option<BuildIndices.Record>, next: Option<BuildIndices.Record>)

  /** The neighbour lookup of `render`: the records just before and just
      after the chapter's position in the whole books index. */
  function Neighbours(lista: seq<BuildIndices.Record>, src: string, decode: string -> string): (n: Nav)
    ensures var idx := FindIndex(lista, src, decode);
      (n.prev.Some? <==> idx > 0) && (n.next.Some? <==> 0 <= idx < |lista| - 1)
    ensures var idx := FindIndex(lista, src, decode);
      (n.prev.Some? ==> n.prev.value == lista[idx - 1]) && (n.next.Some? ==> n.next.value == lista[idx + 1])
  {
    var idx := FindIndex(lista, src, decode);
    Nav(if idx > 0 then Some(lista[idx - 1]) else None,
        if 0 <= idx < |lista| - 1 then Some(lista[idx + 1]) else None)
  }

  /** The lookup reads paths only: two indices with the same paths give
      neighbours at the same positions, whatever their books or stored
      links. */
  lemma {:induction false} FindIndexReadsPathsOnly(s: seq<BuildIndices.Record>, t: seq<BuildIndices.Record>,
                                                  src: string, decode: string -> string, i: nat)
    requires |s| == |t| && i <= |s|
    requires forall k :: 0 <= k < |s| ==> s[k].path == t[k].path
    ensures FindIndex(s, src, decode, i) == FindIndex(t, src, decode, i)
    decreases |s| - i
  {
    if i < |s| {
      FindIndexReadsPathsOnly(s, t, src, decode, i + 1);
    }
  }

  /** Linking the books index does not move what the lookup finds. */
  lemma LinkKeepsLookup(s: seq<BuildIndices.Record>, src: string, decode: string -> string)
    ensures FindIndex(BuildIndices.Link(s), src, decode) == FindIndex(s, src, decode)
  {
    BuildIndices.LinkChangesOnlyLinks(s);
    FindIndexReadsPathsOnly(BuildIndices.Link(s), s, src, decode, 0);
  }

  /** When the index holds one book only, the reader's buttons lead to the
      records the stored `prev` and `next` name. */
  lemma ViewerAgreesWithinOneBook(s: seq<BuildIndices.Record>, src: string, decode: string -> string)
    requires forall k :: 0 <= k < |s| ==> BuildIndices.BookKey(s[k]) == BuildIndices.BookKey(s[0])
    requires FindIndex(s, src, decode) >= 0
    ensures var idx := FindIndex(s, src, decode);
      var n := Neighbours(BuildIndices.Link(s), src, decode);
      && (n.prev.Some? ==> BuildIndices.Link(s)[idx].prev == Some(n.prev.value.path))
      && (n.next.Some? ==> BuildIndices.Link(s)[idx].next == Some(n.next.value.path))
      && (n.prev.None? ==> BuildIndices.Link(s)[idx].prev == Some(""))
      && (n.next.None? ==> BuildIndices.Link(s)[idx].next == Some(""))
  {
    var idx := FindIndex(s, src, decode);
    var l := BuildIndices.Link(s);
    LinkKeepsLookup(s, src, decode);
    OneBookPrev(s, idx);
    OneBookNext(s, idx);
    assert Neighbours(l, src, decode)
        == Nav(if idx > 0 then Some(l[idx - 1]) else None, if idx < |s| - 1 then Some(l[idx + 1]) else None);
    if idx > 0 {
      assert l[idx - 1] == BuildIndices.Linked(s, idx - 1);
    }
    if idx < |s| - 1 {
      assert l[idx + 1] == BuildIndices.Linked(s, idx + 1);
    }
  }

  /** In an index of one book, a record's stored `prev` is the record just
      before it, or '' for the first. */
  lemma OneBookPrev(s: seq<BuildIndices.Record>, idx: nat)
    requires forall k :: 0 <= k < |s| ==> BuildIndices.BookKey(s[k]) == BuildIndices.BookKey(s[0])
    requires idx < |s|
    ensures BuildIndices.Link(s)[idx].prev == Some(if idx > 0 then s[idx - 1].path else "")
  {
    var key := BuildIndices.BookKey(s[idx]);
    assert BuildIndices.Link(s)[idx] == BuildIndices.Linked(s, idx);
    if idx > 0 {
      assert BuildIndices.BookKey(s[idx - 1]) == key;
    }
  }

  /** ... and its stored `next` the record just after it, or '' for the
      last. */
  lemma OneBookNext(s: seq<BuildIndices.Record>, idx: nat)
    requires forall k :: 0 <= k < |s| ==> BuildIndices.BookKey(s[k]) == BuildIndices.BookKey(s[0])
    requires idx < |s|
    ensures BuildIndices.Link(s)[idx].next == Some(if idx < |s| - 1 then s[idx + 1].path else "")
  {
    var key := BuildIndices.BookKey(s[idx]);
    assert BuildIndices.Link(s)[idx] == BuildIndices.Linked(s, idx);
    if idx < |s| - 1 {
      assert BuildIndices.BookKey(s[idx + 1]) == key;
    }
  }

  /** When the record before a chapter in the index belongs to another
      book, the reader's "previous" button leads to that other book's
      record, which is never the chapter the stored `prev` names. */
  lemma ViewerCrossesBooks(s: seq<BuildIndices.Record>, src: string, decode: string -> string)
    requires BuildIndices.UniquePaths(s)
    requires forall k :: 0 <= k < |s| ==> s[k].path != ""
    requires FindIndex(s, src, decode) > 0
    requires BuildIndices.BookKey(s[FindIndex(s, src, decode) - 1]) != BuildIndices.BookKey(s[FindIndex(s, src, decode)])
    ensures var idx := FindIndex(s, src, decode);
      var n := Neighbours(BuildIndices.Link(s), src, decode);
      n.prev == Some(BuildIndices.Link(s)[idx - 1])
      && BuildIndices.Link(s)[idx].prev != Some(n.prev.value.path)
  {
    var idx := FindIndex(s, src, decode);
    var l := BuildIndices.Link(s);
    LinkKeepsLookup(s, src, decode);
    var n := Neighbours(l, src, decode);
    assert n.prev == Some(l[idx - 1]);
    assert l[idx - 1].path == s[idx - 1].path by {
      assert l[idx - 1] == BuildIndices.Linked(s, idx - 1);
    }
    StoredPrevSkipsOtherBook(s, idx);
  }

  /** A record whose index neighbour belongs to another book never names
      that neighbour as its previous chapter. */
  lemma StoredPrevSkipsOtherBook(s: seq<BuildIndices.Record>, idx: nat)
    requires BuildIndices.UniquePaths(s)
    requires forall k :: 0 <= k < |s| ==> s[k].path != ""
    requires 0 < idx < |s| && BuildIndices.BookKey(s[idx - 1]) != BuildIndices.BookKey(s[idx])
    ensures BuildIndices.Link(s)[idx].prev != Some(s[idx - 1].path)
  {
    var key := BuildIndices.BookKey(s[idx]);
    assert BuildIndices.Link(s)[idx] == BuildIndices.Linked(s, idx);
    var p := BuildIndices.PrevInBook(s, key, idx);
    if p.Some? {
      assert p.value < idx - 1;
    }
  }

  // ------------------------------------------------------------ fecha

  /** The `fecha` of `getMetaFromHTML`: the trimmed `#fecha` text, or, when
      that is empty, the date that starts the last `/`-segment of `src` if
      that segment begins `YYYY-MM-DD__`. */
  function FechaFallback(fecha: string, src: Option<string>): (r: string)
    ensures fecha != "" || Or(src, "") == "" ==> r == fecha
    ensures r != fecha ==> IsDateText(r)
    ensures r != fecha ==> var fn := Last(Split(src.value, '/'));
      |fn| >= 12 && fn[..10] == r && fn[10] == '_' && fn[11] == '_'
  {
    if fecha == "" && Or(src, "") != "" then
      var fn := Last(Split(src.value, '/'));
      if DateAt(fn, 0) && |fn| >= 12 && fn[10] == '_' && fn[11] == '_' then fn[..10] else fecha
    else fecha
  }

  /** A chapter stored as `<dir>/YYYY-MM-DD__<rest>` without its own date
      gets the date of its file name. */
  lemma FechaFromFileName(dir: string, d: string, rest: string)
    requires IsDateText(d) && '/' !in rest
    ensures FechaFallback("", Some(dir + "/" + d + "__" + rest)) == d
  {
    var fn := d + "__" + rest;
    assert '/' !in d by {
      forall k | 0 <= k < |d| ensures d[k] != '/' {
        assert k == 4 || k == 7 || IsDigit(d[k]);
      }
    }
    assert '/' !in fn;
    assert dir + "/" + d + "__" + rest == dir + ['/'] + fn;
    LastAfterSeparator(dir, fn, '/');
    assert fn[..10] == d;
  }

  /** The last part of `p + sep + t` split at `sep` is `t` when `t` holds no
      `sep`. */
  lemma {:induction false} LastAfterSeparator(p: string, t: string, sep: char)
    requires sep !in t
    ensures |Split(p + [sep] + t, sep)| >= 2
    ensures Last(Split(p + [sep] + t, sep)) == t
    decreases |p|
  {
    var s := p + [sep] + t;
    if p == [] {
      assert s[1..] == t;
      SplitNoSep(t, sep);
    } else {
      LastAfterSeparator(p[1..], t, sep);
      assert s[1..] == p[1..] + [sep] + t;
    }
  }
}
