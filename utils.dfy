/** js/utils.js: the strict filename parser, the audio-export filename parser
    and the two tolerant HTML field extractors. Every regular expression is
    written out as the matcher it denotes: leftmost match, greedy or lazy
    repetition as the pattern says. */
module Utils {
  import opened Strings

  /** The `{date, time}` pair the filename parsers return. */
  datatype DateTime = DateTime(date: string, time: string)

  const NoDateTime := DateTime("", "")

  // ------------------------------------------------------- date patterns

  /** `\d{2}` at position `i`. */
  predicate DigitPairAt(s: string, i: nat) {
    i + 2 <= |s| && IsDigit(s[i]) && IsDigit(s[i + 1])
  }

  /** `\d{4}-\d{2}-\d{2}` at position `i`. */
  predicate DateAt(s: string, i: nat) {
    i + 10 <= |s| && DigitPairAt(s, i) && DigitPairAt(s, i + 2) && s[i + 4] == '-'
    && DigitPairAt(s, i + 5) && s[i + 7] == '-' && DigitPairAt(s, i + 8)
  }

  /** A date as the parsers return it: ten characters, digits except for `-`
      at positions 4 and 7. The digit values are not range-checked. */
  predicate IsDateText(d: string) {
    |d| == 10 && DateAt(d, 0)
  }

  /** A time as the parsers return it: `DD:DD:DD`, not range-checked. */
  predicate IsTimeText(t: string) {
    |t| == 8 && DigitPairAt(t, 0) && t[2] == ':' && DigitPairAt(t, 3) && t[5] == ':' && DigitPairAt(t, 6)
  }

  /** The leftmost `\d{4}-\d{2}-\d{2}` at or after `i`. */
  function FirstDateFrom(s: string, i: nat): (r: Option<nat>)
    decreases |s| - i
    ensures r.Some? ==> i <= r.value && DateAt(s, r.value)
    ensures r.Some? ==> forall k :: i <= k < r.value ==> !DateAt(s, k)
    ensures r.None? ==> forall k :: i <= k ==> !DateAt(s, k)
  {
    if i + 10 > |s| then None
    else if DateAt(s, i) then Some(i)
    else FirstDateFrom(s, i + 1)
  }

  /** A time `HH:MM:SS` written with `sep` between the fields. */
  function TimeWith(t: string, sep: char): string {
    ReplaceChar(t, ':', sep)
  }

  lemma TimeWithShape(t: string, sep: char)
    requires IsTimeText(t)
    ensures TimeWith(t, sep) == t[..2] + [sep] + t[3..5] + [sep] + t[6..]
  {
    var r := TimeWith(t, sep);
    assert r == t[..2] + [sep] + t[3..5] + [sep] + t[6..] by {
      assert |r| == 8;
      forall k | 0 <= k < 8
        ensures r[k] == (t[..2] + [sep] + t[3..5] + [sep] + t[6..])[k]
      {
      }
    }
  }

  // ------------------------------------------------------- strict parser

  /** `^(\d{4}-\d{2}-\d{2})__(\d{2})-(\d{2})-(\d{2})` */
  predicate StrictMatch(name: string) {
    DateAt(name, 0) && |name| >= 20 && name[10] == '_' && name[11] == '_'
    && DigitPairAt(name, 12) && name[14] == '-' && DigitPairAt(name, 15) && name[17] == '-'
    && DigitPairAt(name, 18)
  }

  /** `parseDateTimeFromName`: a name that starts with a date, two
      underscores and a time with all three fields gives that date and time;
      any other name gives two empty strings. */
  function ParseDateTimeFromName(name: string): (r: DateTime)
    ensures r == NoDateTime || (IsDateText(r.date) && IsTimeText(r.time))
    ensures r != NoDateTime ==> |name| >= 20 && name[..20] == r.date + "__" + TimeWith(r.time, '-')
  {
    if StrictMatch(name) then
      StrictParts(name);
      DateTime(StrictDate(name), StrictTime(name))
    else NoDateTime
  }

  function StrictDate(name: string): string
    requires StrictMatch(name)
  {
    name[..10]
  }

  function StrictTime(name: string): string
    requires StrictMatch(name)
  {
    name[12..14] + ":" + name[15..17] + ":" + name[18..20]
  }

  /** The fields a strict match captures are a date and a time, and the
      name's first twenty characters spell them out again. */
  lemma StrictParts(name: string)
    requires StrictMatch(name)
    ensures IsDateText(StrictDate(name)) && IsTimeText(StrictTime(name))
    ensures name[..20] == StrictDate(name) + "__" + TimeWith(StrictTime(name), '-')
  {
    var d, t := StrictDate(name), StrictTime(name);
    assert |t| == 8 && t[..2] == name[12..14] && t[3..5] == name[15..17] && t[6..] == name[18..20];
    assert IsTimeText(t);
    TimeWithShape(t, '-');
    assert name[..20] == name[..10] + name[10..12] + name[12..14] + name[14..15] + name[15..17] + name[17..18] + name[18..20];
  }

  /** Every date and time written the way the strict parser expects is read
      back unchanged, whatever follows it. */
  lemma StrictRoundTrip(d: string, t: string, rest: string)
    requires IsDateText(d) && IsTimeText(t)
    ensures ParseDateTimeFromName(d + "__" + TimeWith(t, '-') + rest) == DateTime(d, t)
  {
    TimeWithShape(t, '-');
    var name := d + "__" + TimeWith(t, '-') + rest;
    assert name[..10] == d;
    assert name[12..14] == t[..2] && name[15..17] == t[3..5] && name[18..20] == t[6..];
    assert t == t[..2] + ":" + t[3..5] + ":" + t[6..];
  }

  // -------------------------------------------------- audio-export parser

  const WhatsAppPrefix := "WhatsApp Audio "

  /** `^WhatsApp Audio (\d{4}-\d{2}-\d{2}) at (\d{2})\.(\d{2})\.(\d{2})` */
  predicate WhatsAppMatch(name: string) {
    |name| >= 37 && MatchesAt(name, 0, WhatsAppPrefix) && DateAt(name, 15) && MatchesAt(name, 25, " at ")
    && DigitPairAt(name, 29) && name[31] == '.' && DigitPairAt(name, 32) && name[34] == '.'
    && DigitPairAt(name, 35)
  }

  /** `parseWhatsAppAudio`: the date and the dot-separated clock of an audio
      export's name, the dots turned into colons; two empty strings for any
      other name. */
  function ParseWhatsAppAudio(name: string): (r: DateTime)
    ensures r == NoDateTime || (IsDateText(r.date) && IsTimeText(r.time))
    ensures r != NoDateTime ==> |name| >= 37 && name[..37] == WhatsAppPrefix + r.date + " at " + TimeWith(r.time, '.')
  {
    if WhatsAppMatch(name) then
      var r := DateTime(name[15..25], name[29..31] + ":" + name[32..34] + ":" + name[35..37]);
      WhatsAppMatchShape(name, r);
      r
    else NoDateTime
  }

  lemma WhatsAppMatchShape(name: string, r: DateTime)
    requires WhatsAppMatch(name)
    requires r == DateTime(name[15..25], name[29..31] + ":" + name[32..34] + ":" + name[35..37])
    ensures IsDateText(r.date) && IsTimeText(r.time)
    ensures name[..37] == WhatsAppPrefix + r.date + " at " + TimeWith(r.time, '.')
  {
    assert IsTimeText(r.time);
    TimeWithShape(r.time, '.');
    var t := TimeWith(r.time, '.');
    assert t == name[29..37];
    assert name[..37] == name[..15] + name[15..25] + name[25..29] + name[29..37];
  }

  /** The name of every audio export is read back as its date and time. */
  lemma WhatsAppRoundTrip(d: string, t: string, rest: string)
    requires IsDateText(d) && IsTimeText(t)
    ensures ParseWhatsAppAudio(WhatsAppPrefix + d + " at " + TimeWith(t, '.') + rest) == DateTime(d, t)
  {
    TimeWithShape(t, '.');
    WhatsAppNameReads(d, t, TimeWith(t, '.'), rest);
  }

  /** The same, with the clock's dotted form given as its pieces. */
  lemma WhatsAppNameReads(d: string, t: string, u: string, rest: string)
    requires IsDateText(d) && IsTimeText(t)
    requires u == t[..2] + ['.'] + t[3..5] + ['.'] + t[6..]
    ensures ParseWhatsAppAudio(WhatsAppPrefix + d + " at " + u + rest) == DateTime(d, t)
  {
    var name := WhatsAppPrefix + d + " at " + u + rest;
    assert name == WhatsAppPrefix + (d + (" at " + (u + rest)));
    assert name[..15] == WhatsAppPrefix && name[15..25] == d && name[25..29] == " at " && name[29..37] == u;
    assert DateAt(name, 15) by {
      assert forall k :: 0 <= k < 10 ==> name[15 + k] == d[k];
    }
    assert forall k :: 0 <= k < 8 ==> name[29 + k] == u[k];
    assert WhatsAppMatch(name);
    assert name[29..31] == t[..2] && name[32..34] == t[3..5] && name[35..37] == t[6..];
    assert t == t[..2] + ":" + t[3..5] + ":" + t[6..];
  }

  // ------------------------------------------------------ <title> element

  /** The lazy `(.*?)<\/title>` from position `j`: the first closing tag
      reached before any line terminator. */
  function TitleCloseFrom(s: string, j: nat): (r: Option<nat>)
    decreases |s| - j
    ensures r.Some? ==> j <= r.value && MatchesAtIgnoreCase(s, r.value, "</title>")
    ensures r.Some? ==> forall k :: j <= k < r.value ==> !IsLineTerminator(s[k])
    ensures r.Some? ==> forall k :: j <= k < r.value ==> !MatchesAtIgnoreCase(s, k, "</title>")
  {
    if MatchesAtIgnoreCase(s, j, "</title>") then Some(j)
    else if j < |s| && !IsLineTerminator(s[j]) then TitleCloseFrom(s, j + 1)
    else None
  }

  /** A closing tag with one line of text and no other closing tag before
      it is the one the lazy repetition stops at. */
  lemma {:induction false} TitleCloseIs(s: string, j: nat, e: nat)
    requires j <= e && MatchesAtIgnoreCase(s, e, "</title>")
    requires forall k :: j <= k < e ==> !IsLineTerminator(s[k])
    requires forall k :: j <= k < e ==> !MatchesAtIgnoreCase(s, k, "</title>")
    ensures TitleCloseFrom(s, j) == Some(e)
    decreases e - j
  {
    if j < e {
      TitleCloseIs(s, j + 1, e);
    }
  }

  /** `<title>(.*?)<\/title>` (`i` flag) tried at position `o`: the opening
      tag, then a closing tag on the same line. */
  predicate TitleAt(s: string, o: nat) {
    MatchesAtIgnoreCase(s, o, "<title>") && TitleCloseFrom(s, o + 7).Some?
  }

  /** The leftmost position at or after `i` where the title pattern
      matches. */
  function FirstTitleFrom(s: string, i: nat): (r: Option<nat>)
    decreases |s| - i
    ensures r.Some? ==> i <= r.value && TitleAt(s, r.value)
    ensures r.Some? ==> forall k :: i <= k < r.value ==> !TitleAt(s, k)
    ensures r.None? ==> forall k :: i <= k ==> !TitleAt(s, k)
  {
    if i >= |s| then None
    else if TitleAt(s, i) then Some(i)
    else FirstTitleFrom(s, i + 1)
  }

  /** The text captured by the title matched at `o`. */
  function TitleText(s: string, o: nat): (t: string)
    requires TitleAt(s, o)
    ensures forall k :: 0 <= k < |t| ==> !IsLineTerminator(t[k])
  {
    s[o + 7..TitleCloseFrom(s, o + 7).value]
  }

  /** `extractTitle`: the trimmed text of the first `<title>` element whose
      text stays on one line, or '' when there is none. */
  function ExtractTitle(html: string): (r: string)
    ensures IsTrimmed(r)
    ensures forall k :: 0 <= k < |r| ==> !IsLineTerminator(r[k])
    ensures (forall k :: !TitleAt(html, k)) ==> r == []
    ensures r != [] ==> exists k :: TitleAt(html, k)
  {
    match FirstTitleFrom(html, 0)
    case None => ""
    case Some(o) =>
      TrimKeepsNoLineTerminator(TitleText(html, o));
      Trim(TitleText(html, o))
  }

  /** A page whose first `<title>` element stays on one line is titled by
      the trimmed text of that element, whatever follows it. */
  lemma ExtractTitleOfPage(pre: string, t: string, post: string)
    requires forall k :: !MatchesAtIgnoreCase(pre, k, "<title>")
    requires forall k :: 0 <= k < |t| ==> !IsLineTerminator(t[k])
    requires forall k :: !MatchesAtIgnoreCase(t, k, "</title>")
    ensures ExtractTitle(pre + "<title>" + t + "</title>" + post) == Trim(t)
  {
    var html := pre + "<title>" + t + "</title>" + post;
    var P := |pre|;
    TitlePageLayout(pre, t, post, P, P + 7, P + 7 + |t|);
    ExtractTitleOfLayout(html, pre, t, P, P + 7, P + 7 + |t|);
  }

  /** The same, for a page given by where its pieces stand. */
  lemma ExtractTitleOfLayout(html: string, pre: string, t: string, P: nat, Q: nat, E: nat)
    requires forall k :: !MatchesAtIgnoreCase(pre, k, "<title>")
    requires forall k :: 0 <= k < |t| ==> !IsLineTerminator(t[k])
    requires forall k :: !MatchesAtIgnoreCase(t, k, "</title>")
    requires P == |pre| && Q == P + 7 && E == Q + |t| && E + 8 <= |html|
    requires forall i :: 0 <= i < P ==> html[i] == pre[i]
    requires forall i :: P <= i < Q ==> html[i] == "<title>"[i - P]
    requires forall i :: Q <= i < E ==> html[i] == t[i - Q]
    requires forall i :: E <= i < E + 8 ==> html[i] == "</title>"[i - E]
    ensures ExtractTitle(html) == Trim(t)
  {
    TitleTagsFoldFixed();
    MatchesCopy(html, P, "<title>");
    TitleCloseAfter(html, Q, E, t);
    SliceCopy(html, Q, t);
    TitleTextIs(html, P, Q, E);
    NoTitleBefore(html, pre);
    FirstTitleIs(html, P);
  }

  lemma TitleTextIs(s: string, o: nat, q: nat, e: nat)
    requires q == o + 7 && MatchesAtIgnoreCase(s, o, "<title>") && TitleCloseFrom(s, q) == Some(e)
    ensures TitleAt(s, o) && TitleText(s, o) == s[q..e]
  {
  }

  lemma TitleTagsFoldFixed()
    ensures FoldFixed("<title>") && FoldFixed("</title>")
  {
  }

  /** No title element starts inside a prefix without an opening tag that
      is followed by a `<`. */
  lemma NoTitleBefore(html: string, pre: string)
    requires forall k :: !MatchesAtIgnoreCase(pre, k, "<title>")
    requires |pre| < |html| && html[|pre|] == '<'
    requires forall i :: 0 <= i < |pre| ==> html[i] == pre[i]
    ensures forall k :: 0 <= k < |pre| ==> !TitleAt(html, k)
  {
    assert StartOnly("<title>", AsciiFold(html[|pre|]));
    forall k | 0 <= k < |pre| ensures !TitleAt(html, k) {
      NoMatchAcross(html, 0, pre, "<title>", k);
    }
  }

  /** Where the pieces of a titled page stand: the opening tag at `P`,
      the text from `Q`, the closing tag at `E`. */
  lemma TitlePageLayout(pre: string, t: string, post: string, P: nat, Q: nat, E: nat)
    requires P == |pre| && Q == P + 7 && E == Q + |t|
    ensures var html := pre + "<title>" + t + "</title>" + post;
      |html| == E + 8 + |post|
      && (forall i :: 0 <= i < P ==> html[i] == pre[i])
      && (forall i :: P <= i < Q ==> html[i] == "<title>"[i - P])
      && (forall i :: Q <= i < E ==> html[i] == t[i - Q])
      && (forall i :: E <= i < E + 8 ==> html[i] == "</title>"[i - E])
  {
  }

  /** One line of text without a closing tag, then a closing tag: the lazy
      repetition stops right after the text. */
  lemma TitleCloseAfter(html: string, lo: nat, e: nat, t: string)
    requires forall k :: 0 <= k < |t| ==> !IsLineTerminator(t[k])
    requires forall k :: !MatchesAtIgnoreCase(t, k, "</title>")
    requires e == lo + |t| && e + 8 <= |html|
    requires forall i :: lo <= i < e ==> html[i] == t[i - lo]
    requires forall i :: e <= i < e + 8 ==> html[i] == "</title>"[i - e]
    ensures TitleCloseFrom(html, lo) == Some(e)
  {
    CloseTitleCopy(html, e);
    TitleTextHasNoClose(html, lo, t);
    TitleCloseIs(html, lo, e);
  }

  lemma CloseTitleCopy(html: string, e: nat)
    requires e + 8 <= |html|
    requires forall i :: e <= i < e + 8 ==> html[i] == "</title>"[i - e]
    ensures MatchesAtIgnoreCase(html, e, "</title>") && html[e] == '<'
  {
    TitleTagsFoldFixed();
    MatchesCopy(html, e, "</title>");
  }

  /** No line terminator and no closing tag start inside the copied text,
      when a `<` follows it. */
  lemma TitleTextHasNoClose(html: string, lo: nat, t: string)
    requires forall k :: 0 <= k < |t| ==> !IsLineTerminator(t[k])
    requires forall k :: !MatchesAtIgnoreCase(t, k, "</title>")
    requires lo + |t| < |html| && html[lo + |t|] == '<'
    requires forall i :: lo <= i < lo + |t| ==> html[i] == t[i - lo]
    ensures forall k :: lo <= k < lo + |t| ==> !IsLineTerminator(html[k])
    ensures forall k :: lo <= k < lo + |t| ==> !MatchesAtIgnoreCase(html, k, "</title>")
  {
    assert StartOnly("</title>", AsciiFold(html[lo + |t|]));
    forall k | lo <= k < lo + |t|
      ensures !IsLineTerminator(html[k]) && !MatchesAtIgnoreCase(html, k, "</title>")
    {
      assert html[k] == t[k - lo];
      NoMatchAcross(html, lo, t, "</title>", k);
    }
  }

  lemma FirstTitleIs(s: string, P: nat)
    requires TitleAt(s, P) && forall k :: 0 <= k < P ==> !TitleAt(s, k)
    ensures FirstTitleFrom(s, 0) == Some(P)
  {
  }

  lemma TrimKeepsNoLineTerminator(t: string)
    requires forall k :: 0 <= k < |t| ==> !IsLineTerminator(t[k])
    ensures forall k :: 0 <= k < |Trim(t)| ==> !IsLineTerminator(Trim(t)[k])
  {
    var r := Trim(t);
    var off := TrimOffset(t);
    forall k | 0 <= k < |r| ensures !IsLineTerminator(r[k]) {
      assert r[k] == t[off + k];
    }
  }

  // -------------------------------------------------- elements by id

  /** No white space at either end, as `trim` leaves it. */
  predicate IsTrimmed(r: string) {
    r == [] || (!IsSpace(r[0]) && !IsSpace(r[|r| - 1]))
  }

  /** The four fields an entry carries as elements with these ids. */
  datatype Meta = Meta(libro: string, capitulo: string, titulo: string, fecha: string)

  predicate IsQuote(c: char) { c == '"' || c == '\'' }

  /** The ids looked up are lower-case ASCII words. */
  predicate IsLowerWord(id: string) {
    forall k :: 0 <= k < |id| ==> 'a' <= id[k] <= 'z'
  }

  /** `id=["']<id>["']` at position `k` (`i` flag; `id` is lower-case). */
  predicate IdAttrAt(s: string, k: nat, id: string) {
    MatchesAtIgnoreCase(s, k, "id=") && k + 4 + |id| < |s| && IsQuote(s[k + 3])
    && MatchesAtIgnoreCase(s, k + 4, id) && IsQuote(s[k + 4 + |id|])
  }

  /** Some position in `[lo, hi)` starts an `id=` attribute for `id`. */
  predicate HasIdAttr(s: string, lo: nat, hi: nat, id: string)
    decreases hi - lo
    ensures HasIdAttr(s, lo, hi, id) ==> exists k :: lo <= k < hi && IdAttrAt(s, k, id)
  {
    lo < hi && (IdAttrAt(s, lo, id) || HasIdAttr(s, lo + 1, hi, id))
  }

  lemma {:induction false} HasIdAttrIntro(s: string, lo: nat, hi: nat, id: string, k: nat)
    requires lo <= k < hi && IdAttrAt(s, k, id)
    ensures HasIdAttr(s, lo, hi, id)
    decreases k - lo
  {
    if lo < k {
      HasIdAttrIntro(s, lo + 1, hi, id, k);
    }
  }

  /** An attribute for a lower-case id holds no `>`. */
  lemma IdAttrHasNoGt(s: string, j: nat, id: string)
    requires IdAttrAt(s, j, id) && IsLowerWord(id)
    ensures forall m :: j <= m <= j + 4 + |id| ==> s[m] != '>'
  {
    forall m | j <= m <= j + 4 + |id| ensures s[m] != '>' {
      if m - j < 3 {
        assert AsciiFold(s[j + (m - j)]) == "id="[m - j];
      } else if 4 <= m - j < 4 + |id| {
        assert AsciiFold(s[(j + 4) + (m - j - 4)]) == id[m - j - 4];
      }
    }
  }

  /** An attribute found inside a tag of `pre` lies wholly inside `pre`. */
  lemma HasIdAttrInPrefix(pre: string, rest: string, id: string, lo: nat, hi: nat)
    requires IsLowerWord(id) && hi < |pre| && pre[hi] == '>'
    ensures HasIdAttr(pre + rest, lo, hi, id) ==> HasIdAttr(pre, lo, hi, id)
  {
    var s := pre + rest;
    if HasIdAttr(s, lo, hi, id) {
      var j :| lo <= j < hi && IdAttrAt(s, j, id);
      IdAttrHasNoGt(s, j, id);
      assert s[hi] == '>';
      assert j + 4 + |id| < hi;
      assert forall m :: 0 <= m < 3 ==> AsciiFold(pre[j + m]) == "id="[m];
      assert forall m :: 0 <= m < |id| ==> AsciiFold(pre[j + 4 + m]) == id[m];
      assert IdAttrAt(pre, j, id);
      HasIdAttrIntro(pre, lo, hi, id, j);
    }
  }

  /** `<\/[^>]+>` at position `j`. */
  predicate CloseTagAt(s: string, j: nat) {
    j + 2 < |s| && s[j] == '<' && s[j + 1] == '/' && s[j + 2] != '>' && FindChar(s, '>', j + 2).Some?
  }

  /** The lazy `([\s\S]*?)<\/[^>]+>` from position `p`. */
  function FirstCloseTagFrom(s: string, p: nat): (r: Option<nat>)
    decreases |s| - p
    ensures r.Some? ==> p <= r.value && CloseTagAt(s, r.value)
    ensures r.Some? ==> forall k :: p <= k < r.value ==> !CloseTagAt(s, k)
    ensures r.None? ==> forall k :: p <= k ==> !CloseTagAt(s, k)
  {
    if p >= |s| then None
    else if CloseTagAt(s, p) then Some(p)
    else FirstCloseTagFrom(s, p + 1)
  }

  /** `<[^>]*id=["']<id>["'][^>]*>([\s\S]*?)<\/[^>]+>` (`i` flag) tried at
      position `o`: the opening tag ends at the first `>` after its `<`
      (none of the characters of the attribute is a `>`), carries the
      attribute, and a closing tag follows it somewhere. */
  predicate ElementAt(s: string, id: string, o: nat) {
    o < |s| && s[o] == '<' && FindChar(s, '>', o + 1).Some?
    && HasIdAttr(s, o + 1, FindChar(s, '>', o + 1).value, id)
    && FirstCloseTagFrom(s, FindChar(s, '>', o + 1).value + 1).Some?
  }

  /** The leftmost position at or after `i` where the element pattern
      matches. */
  function FirstElementById(s: string, id: string, i: nat): (r: Option<nat>)
    decreases |s| - i
    ensures r.Some? ==> i <= r.value && ElementAt(s, id, r.value)
    ensures r.Some? ==> forall k :: i <= k < r.value ==> !ElementAt(s, id, k)
    ensures r.None? ==> forall k :: i <= k ==> !ElementAt(s, id, k)
  {
    if i >= |s| then None
    else if ElementAt(s, id, i) then Some(i)
    else FirstElementById(s, id, i + 1)
  }

  /** The text captured by the element matched at `o`: from its opening
      tag's `>` to the first closing tag after it. */
  function ElementText(s: string, id: string, o: nat): string
    requires ElementAt(s, id, o)
  {
    s[FindChar(s, '>', o + 1).value + 1..FirstCloseTagFrom(s, FindChar(s, '>', o + 1).value + 1).value]
  }

  /** The inner `get(id)` of `extractMetaByIds`. */
  function TextById(html: string, id: string): (r: string)
    ensures IsTrimmed(r)
    ensures (forall k :: !ElementAt(html, id, k)) ==> r == []
    ensures r != [] ==> exists k :: ElementAt(html, id, k)
  {
    match FirstElementById(html, id, 0)
    case None => ""
    case Some(o) => Trim(ElementText(html, id, o))
  }

  /** Every `<` of `pre` opens a tag that closes inside `pre` and carries no
      attribute for `id`. */
  predicate TagsWithoutId(pre: string, id: string) {
    forall k :: 0 <= k < |pre| && pre[k] == '<' ==>
      FindChar(pre, '>', k + 1).Some? && !HasIdAttr(pre, k + 1, FindChar(pre, '>', k + 1).value, id)
  }

  /** No text holding `</`. */
  predicate NoCloseTag(t: string) {
    forall k :: 0 <= k && k + 1 < |t| ==> !(t[k] == '<' && t[k + 1] == '/')
  }

  /** `<span id="<id>">`. */
  function SpanOpen(id: string): string {
    "<span id=\"" + id + "\">"
  }

  /** A page whose first element carrying the id is a
      `<span id="<id>">…</span>` holding no other closing tag gives the
      trimmed text of that span. */
  lemma TextByIdOfSpan(pre: string, id: string, t: string, post: string)
    requires IsLowerWord(id) && TagsWithoutId(pre, id) && NoCloseTag(t)
    ensures TextById(pre + SpanOpen(id) + t + "</span>" + post, id) == Trim(t)
  {
    var rest := SpanOpen(id) + t + "</span>" + post;
    var html := pre + rest;
    assert html == pre + SpanOpen(id) + t + "</span>" + post;
    var P := |pre|;
    var Q := P + 10;
    var G := Q + |id| + 1;
    var A := G + 1;
    var E := A + |t|;
    SpanPageLayout(pre, id, t, post, P, Q, G, A, E);
    SpanElementAt(html, id, t, P, Q, G, A, E);
    forall k | 0 <= k < P ensures !ElementAt(html, id, k) {
      NoElementInPre(pre, rest, id, k);
    }
    FirstElementIs(html, id, P);
  }

  /** Where the pieces of a page with a span stand: the span opens at `P`,
      its id starts at `Q`, its opening tag ends at `G`, its text runs from
      `A` to `E`, where its closing tag starts. */
  lemma SpanPageLayout(pre: string, id: string, t: string, post: string, P: nat, Q: nat, G: nat, A: nat, E: nat)
    requires P == |pre| && Q == P + 10 && G == Q + |id| + 1 && A == G + 1 && E == A + |t|
    ensures var html := pre + SpanOpen(id) + t + "</span>" + post;
      |html| == E + 7 + |post|
      && (forall i :: P <= i < Q ==> html[i] == "<span id=\""[i - P])
      && (forall i :: Q <= i < Q + |id| ==> html[i] == id[i - Q])
      && html[Q + |id|] == '"' && html[G] == '>'
      && (forall i :: A <= i < E ==> html[i] == t[i - A])
      && html[E] == '<' && html[E + 1] == '/' && html[E + 2] == 's' && html[E + 6] == '>'
  {
    var html := pre + SpanOpen(id) + t + "</span>" + post;
    var open := SpanOpen(id);
    assert open == "<span id=\"" + id + "\">";
    assert html == pre + (open + (t + ("</span>" + post)));
    assert forall i :: P <= i < Q ==> html[i] == open[i - P];
    forall i | Q <= i < Q + |id| ensures html[i] == id[i - Q] {
      assert html[i] == open[i - P];
      assert open[i - P] == id[i - Q];
    }
  }

  /** The literal's characters that matter: no `>`, and `id="` at 6. */
  lemma SpanOpenLiteral()
    ensures forall x :: 0 <= x < 10 ==> "<span id=\""[x] != '>'
    ensures "<span id=\""[0] == '<' && "<span id=\""[6..9] == "id=" && "<span id=\""[9] == '"'
  {
  }

  lemma LowerWordFoldFixed(id: string)
    requires IsLowerWord(id)
    ensures FoldFixed(id)
  {
  }

  /** The span laid out from `P` is an element for the id, and its text is
      the text between its tags. */
  lemma SpanElementAt(html: string, id: string, t: string, P: nat, Q: nat, G: nat, A: nat, E: nat)
    requires IsLowerWord(id) && NoCloseTag(t)
    requires Q == P + 10 && G == Q + |id| + 1 && A == G + 1 && E == A + |t| && E + 7 <= |html|
    requires forall i :: P <= i < Q ==> html[i] == "<span id=\""[i - P]
    requires forall i :: Q <= i < Q + |id| ==> html[i] == id[i - Q]
    requires html[Q + |id|] == '"' && html[G] == '>'
    requires forall i :: A <= i < E ==> html[i] == t[i - A]
    requires html[E] == '<' && html[E + 1] == '/' && html[E + 2] == 's' && html[E + 6] == '>'
    ensures ElementAt(html, id, P) && ElementText(html, id, P) == t
  {
    SpanOpenTag(html, id, P, Q, G);
    SpanTextEnds(html, t, A, E);
    SliceCopy(html, A, t);
  }

  /** The text between the tags holds no closing tag, so the lazy
      repetition stops at the span's own closing tag. */
  lemma SpanTextEnds(html: string, t: string, A: nat, E: nat)
    requires NoCloseTag(t) && E == A + |t| && E + 7 <= |html|
    requires forall i :: A <= i < E ==> html[i] == t[i - A]
    requires html[E] == '<' && html[E + 1] == '/' && html[E + 2] == 's' && html[E + 6] == '>'
    ensures FirstCloseTagFrom(html, A) == Some(E)
  {
    assert CloseTagAt(html, E) by {
      assert html[E + 6] == '>';
    }
    forall k | A <= k < E ensures !CloseTagAt(html, k) {
      if k + 1 < E {
        assert html[k] == t[k - A] && html[k + 1] == t[k + 1 - A];
      }
    }
    FirstCloseTagIs(html, A, E);
  }

  lemma {:induction false} FirstCloseTagIs(s: string, p: nat, e: nat)
    requires p <= e && CloseTagAt(s, e)
    requires forall k :: p <= k < e ==> !CloseTagAt(s, k)
    ensures FirstCloseTagFrom(s, p) == Some(e)
    decreases e - p
  {
    if p < e {
      FirstCloseTagIs(s, p + 1, e);
    }
  }

  /** `<span id="<id>">` laid out from `P` is an opening tag ending at `G`
      and carrying the id. */
  lemma SpanOpenTag(html: string, id: string, P: nat, Q: nat, G: nat)
    requires IsLowerWord(id) && Q == P + 10 && G == Q + |id| + 1 && G < |html|
    requires forall i :: P <= i < Q ==> html[i] == "<span id=\""[i - P]
    requires forall i :: Q <= i < Q + |id| ==> html[i] == id[i - Q]
    requires html[Q + |id|] == '"' && html[G] == '>'
    ensures html[P] == '<' && FindChar(html, '>', P + 1) == Some(G)
    ensures HasIdAttr(html, P + 1, G, id)
  {
    SpanTagHasNoGt(html, id, P, Q, G);
    SpanIdAttr(html, id, P, Q);
    HasIdAttrIntro(html, P + 1, G, id, P + 6);
  }

  lemma SpanTagHasNoGt(html: string, id: string, P: nat, Q: nat, G: nat)
    requires IsLowerWord(id) && Q == P + 10 && G == Q + |id| + 1 && G < |html|
    requires forall i :: P <= i < Q ==> html[i] == "<span id=\""[i - P]
    requires forall i :: Q <= i < Q + |id| ==> html[i] == id[i - Q]
    requires html[Q + |id|] == '"' && html[G] == '>'
    ensures html[P] == '<' && FindChar(html, '>', P + 1) == Some(G)
  {
    SpanOpenLiteral();
    forall k | P + 1 <= k < G ensures html[k] != '>' {
      if k < Q {
        assert html[k] == "<span id=\""[k - P];
      } else if k < Q + |id| {
        assert html[k] == id[k - Q];
      }
    }
    assert html[P] == "<span id=\""[P - P];
  }

  lemma SpanIdAttr(html: string, id: string, P: nat, Q: nat)
    requires IsLowerWord(id) && Q == P + 10 && Q + |id| < |html|
    requires forall i :: P <= i < Q ==> html[i] == "<span id=\""[i - P]
    requires forall i :: Q <= i < Q + |id| ==> html[i] == id[i - Q]
    requires html[Q + |id|] == '"'
    ensures IdAttrAt(html, P + 6, id)
  {
    SpanOpenLiteral();
    forall i | P + 6 <= i < P + 9 ensures html[i] == "id="[i - (P + 6)] {
      assert html[i] == "<span id=\""[i - P];
      assert "<span id=\""[6..9][i - P - 6] == "<span id=\""[i - P];
    }
    assert FoldFixed("id=");
    MatchesCopy(html, P + 6, "id=");
    assert html[P + 9] == "<span id=\""[9];
    LowerWordFoldFixed(id);
    MatchesCopy(html, Q, id);
  }

  lemma FirstElementIs(s: string, id: string, P: nat)
    requires ElementAt(s, id, P) && forall k :: 0 <= k < P ==> !ElementAt(s, id, k)
    ensures FirstElementById(s, id, 0) == Some(P)
  {
  }

  /** A tag of `pre` that closes inside it and carries no attribute for the
      id is no element for the id, whatever follows `pre`. */
  lemma NoElementInPre(pre: string, rest: string, id: string, k: nat)
    requires IsLowerWord(id) && TagsWithoutId(pre, id) && k < |pre|
    ensures !ElementAt(pre + rest, id, k)
  {
    var s := pre + rest;
    if s[k] == '<' {
      assert pre[k] == '<';
      var gt := FindChar(pre, '>', k + 1).value;
      assert s[gt] == '>';
      assert forall j :: k + 1 <= j < gt ==> s[j] == pre[j];
      assert FindChar(s, '>', k + 1) == Some(gt);
      HasIdAttrInPrefix(pre, rest, id, k + 1, gt);
    }
  }

  /** `extractMetaByIds`: each of the four fields is the trimmed text of the
      first element carrying `id="<field>"` (or single quotes, any case),
      up to the first closing tag after it; '' when no tag carries the id.
      It is total: malformed markup only yields empty fields. */
  function ExtractMetaByIds(html: string): (m: Meta)
    ensures IsTrimmed(m.libro) && IsTrimmed(m.capitulo) && IsTrimmed(m.titulo) && IsTrimmed(m.fecha)
    ensures (forall k :: !ElementAt(html, "libro", k)) ==> m.libro == []
    ensures (forall k :: !ElementAt(html, "capitulo", k)) ==> m.capitulo == []
    ensures (forall k :: !ElementAt(html, "titulo", k)) ==> m.titulo == []
    ensures (forall k :: !ElementAt(html, "fecha", k)) ==> m.fecha == []
  {
    Meta(TextById(html, "libro"), TextById(html, "capitulo"), TextById(html, "titulo"), TextById(html, "fecha"))
  }

  /** The book field of a page whose first element carrying `id="libro"`
      is a span holding the book's name. */
  lemma MetaLibroOfSpan(pre: string, t: string, post: string)
    requires TagsWithoutId(pre, "libro") && NoCloseTag(t)
    ensures ExtractMetaByIds(pre + SpanOpen("libro") + t + "</span>" + post).libro == Trim(t)
  {
    assert IsLowerWord("libro");
    TextByIdOfSpan(pre, "libro", t, post);
  }
}
