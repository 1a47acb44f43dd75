/** js/build-indices.js: the flexible filename parser and `buildForCategory`,
    which turns the entries of one category directory into its index: one
    record per accepted entry, newest first, and for the books category the
    prev/next links inside each book. Listing the directory, reading the
    files and writing the JSON file are not modelled: the entries (with what
    reading each would give) are the input and the records are the output. */
module BuildIndices {
  import opened Strings
  import opened Utils
  import opened Sorting

  // ======================================================= flexible parser

  /** `(\d{2})-(\d{2})` at position `p`. */
  predicate ClockAt(s: string, p: nat) {
    DigitPairAt(s, p) && p + 2 < |s| && s[p + 2] == '-' && DigitPairAt(s, p + 3)
  }

  /** `-(\d{2})` at position `p`. */
  predicate SecondsAt(s: string, p: nat) {
    p < |s| && s[p] == '-' && DigitPairAt(s, p + 1)
  }

  /** `${hh}:${mm}:${ss||'00'}` for the clock written at `p`. */
  function Clock(s: string, p: nat, withSeconds: bool): (t: string)
    requires ClockAt(s, p) && (withSeconds ==> SecondsAt(s, p + 5))
    ensures IsTimeText(t)
    ensures t[..2] == s[p..p + 2] && t[3..5] == s[p + 3..p + 5]
    ensures t[6..] == if withSeconds then s[p + 6..p + 8] else "00"
  {
    s[p..p + 2] + ":" + s[p + 3..p + 5] + ":" + (if withSeconds then s[p + 6..p + 8] else "00")
  }

  /** Rule 1, `^(\d{4}-\d{2}-\d{2})__?(\d{2})-(\d{2})(?:-(\d{2}))?`. A second
      underscore is taken whenever there is one: backtracking to a single
      underscore would need a digit where that underscore stands. */
  function PrefixRule(name: string): (r: Option<DateTime>)
    ensures r.Some? ==> DateAt(name, 0) && r.value.date == name[..10]
  {
    if DateAt(name, 0) && |name| > 10 && name[10] == '_' then
      var p := if |name| > 11 && name[11] == '_' then 12 else 11;
      if ClockAt(name, p) then Some(DateTime(name[..10], Clock(name, p, SecondsAt(name, p + 5))))
      else None
    else None
  }

  /** `(?:\.\w+)?$` at position `p`. */
  predicate ExtensionTailAt(s: string, p: nat) {
    p == |s| || (p + 1 < |s| && s[p] == '.' && forall k :: p < k < |s| ==> IsWordChar(s[k]))
  }

  /** The greedy `(?:-(\d{2}))?` of rule 2 takes the seconds exactly when the
      rest of the name still matches after them. */
  predicate SuffixSeconds(s: string, i: nat) {
    SecondsAt(s, i + 16) && ExtensionTailAt(s, i + 19)
  }

  /** Rule 2 starting at `i`:
      `(\d{4}-\d{2}-\d{2})[-_](\d{2})-(\d{2})(?:-(\d{2}))?(?:\.\w+)?$`. */
  predicate SuffixAt(s: string, i: nat) {
    DateAt(s, i) && i + 16 <= |s| && (s[i + 10] == '-' || s[i + 10] == '_') && ClockAt(s, i + 11)
    && (ExtensionTailAt(s, i + 16) || SuffixSeconds(s, i))
  }

  /** The leftmost start of rule 2 at or after `i`. */
  function FirstSuffixFrom(s: string, i: nat): (r: Option<nat>)
    decreases |s| - i
    ensures r.Some? ==> i <= r.value && SuffixAt(s, r.value)
    ensures r.Some? ==> forall k :: i <= k < r.value ==> !SuffixAt(s, k)
    ensures r.None? ==> forall k :: i <= k ==> !SuffixAt(s, k)
  {
    if i + 16 > |s| then None
    else if SuffixAt(s, i) then Some(i)
    else FirstSuffixFrom(s, i + 1)
  }

  function SuffixRule(name: string): (r: Option<DateTime>)
    ensures r.Some? ==> exists i :: DateAt(name, i)
  {
    match FirstSuffixFrom(name, 0)
    case None => None
    case Some(i) => Some(DateTime(name[i..i + 10], Clock(name, i + 11, SuffixSeconds(name, i))))
  }

  /** `parseDateTimeFlexible`: the prefix rule, else the suffix rule, else the
      leftmost bare date with an empty time, else two empty strings. */
  function ParseDateTimeFlexible(name: string): (r: DateTime)
    ensures r.date == "" || IsDateText(r.date)
    ensures r.time == "" || IsTimeText(r.time)
    ensures r.date == "" ==> r.time == ""
  {
    match PrefixRule(name)
    case Some(dt) => dt
    case None =>
      match SuffixRule(name)
      case Some(dt) => dt
      case None =>
        match FirstDateFrom(name, 0)
        case Some(i) => DateTime(name[i..i + 10], "")
        case None => NoDateTime
  }

  /** The flexible parser finds a date exactly when the name holds one
      somewhere. */
  lemma FlexibleFindsAnyDate(name: string)
    ensures ParseDateTimeFlexible(name).date == "" <==> forall i :: !DateAt(name, i)
  {
    if PrefixRule(name).Some? {
      assert DateAt(name, 0);
    } else if SuffixRule(name).Some? {
    } else if FirstDateFrom(name, 0).Some? {
      assert DateAt(name, FirstDateFrom(name, 0).value);
    }
  }

  /** Whenever the strict parser finds a date, the flexible parser returns
      the same pair: trying the strict parser first changes nothing. */
  lemma FlexibleSubsumesStrict(name: string)
    requires ParseDateTimeFromName(name).date != ""
    ensures ParseDateTimeFlexible(name) == ParseDateTimeFromName(name)
  {
    assert StrictMatch(name);
    assert SecondsAt(name, 17);
    var t := ParseDateTimeFromName(name).time;
    assert t == name[12..14] + ":" + name[15..17] + ":" + name[18..20];
    assert PrefixRule(name) == Some(DateTime(name[..10], t));
  }

  /** The clock read at `p`, character by character. */
  lemma ClockChars(s: string, p: nat, withSeconds: bool)
    requires ClockAt(s, p) && (withSeconds ==> SecondsAt(s, p + 5))
    ensures forall k :: 0 <= k < 8 ==>
      Clock(s, p, withSeconds)[k] == if k == 2 || k == 5 then ':' else if k >= 6 && !withSeconds then '0' else s[p + k]
  {
  }

  /** A full clock written with dashes reads back as the clock. */
  lemma ClockReadsBack(name: string, p: nat, t: string)
    requires IsTimeText(t) && p + 8 <= |name|
    requires forall k :: 0 <= k < 8 ==> name[p + k] == if k == 2 || k == 5 then '-' else t[k]
    ensures ClockAt(name, p) && SecondsAt(name, p + 5) && Clock(name, p, true) == t
  {
    assert name[p] == t[0] && name[p + 1] == t[1] && name[p + 2] == '-';
    assert name[p + 3] == t[3] && name[p + 4] == t[4] && name[p + 5] == '-';
    assert name[p + 6] == t[6] && name[p + 7] == t[7];
    ClockChars(name, p, true);
    var c := Clock(name, p, true);
    assert forall k :: 0 <= k < 8 ==> c[k] == t[k];
  }

  /** The prefix rule reads a date, the underscores and a full clock. */
  lemma PrefixReads(name: string, d: string, p: nat, t: string)
    requires IsDateText(d) && IsTimeText(t) && (p == 11 || p == 12) && p + 8 <= |name|
    requires name[..10] == d && name[10] == '_' && (name[11] == '_' <==> p == 12)
    requires forall k :: 0 <= k < 8 ==> name[p + k] == if k == 2 || k == 5 then '-' else t[k]
    ensures PrefixRule(name) == Some(DateTime(d, t))
  {
    assert DateAt(name, 0) by {
      assert forall k :: 0 <= k < 10 ==> name[k] == d[k];
    }
    ClockReadsBack(name, p, t);
  }

  /** A name starting with a date, one or two underscores and a full clock
      gives that date and clock. */
  lemma PrefixRoundTrip(d: string, sep: string, t: string, rest: string)
    requires IsDateText(d) && IsTimeText(t) && (sep == "_" || sep == "__")
    ensures ParseDateTimeFlexible(d + sep + TimeWith(t, '-') + rest) == DateTime(d, t)
  {
    var u := TimeWith(t, '-');
    var name := d + sep + u + rest;
    var p := 10 + |sep|;
    assert name[..10] == d;
    forall k | 0 <= k < 8 ensures name[p + k] == if k == 2 || k == 5 then '-' else t[k] {
      assert name[p + k] == u[k];
    }
    assert name[10] == '_' && (name[11] == '_' <==> p == 12) by {
      assert name[11] == if p == 12 then '_' else t[0];
    }
    PrefixReads(name, d, p, t);
  }

  /** Without seconds the clock reads as `HH:MM:00`, as long as what follows
      does not itself look like seconds. */
  lemma PrefixWithoutSecondsRoundTrip(d: string, sep: string, hm: string, rest: string)
    requires IsDateText(d) && (sep == "_" || sep == "__")
    requires |hm| == 5 && DigitPairAt(hm, 0) && hm[2] == '-' && DigitPairAt(hm, 3)
    requires !SecondsAt(rest, 0)
    ensures ParseDateTimeFlexible(d + sep + hm + rest) == DateTime(d, hm[..2] + ":" + hm[3..] + ":00")
  {
    var name := d + sep + hm + rest;
    var p := 10 + |sep|;
    assert name[..10] == d;
    assert DateAt(name, 0);
    assert name[10] == '_' && (name[11] == '_' <==> sep == "__");
    assert name[p..p + 5] == hm;
    assert ClockAt(name, p);
    assert name[p + 5..] == rest;
    assert !SecondsAt(name, p + 5);
    var t := Clock(name, p, false);
    assert t == hm[..2] + ":" + hm[3..] + ":00";
    assert PrefixRule(name) == Some(DateTime(d, t));
  }

  /** `(?:\.\w+)?$` reads the same inside a longer name. */
  lemma ExtensionTailShift(x: string, y: string)
    ensures ExtensionTailAt(x + y, |x|) == ExtensionTailAt(y, 0)
  {
    var s := x + y;
    if |y| > 1 && y[0] == '.' {
      if forall k :: 0 < k < |y| ==> IsWordChar(y[k]) {
        forall k | |x| < k < |s| ensures IsWordChar(s[k]) { assert s[k] == y[k - |x|]; }
      } else {
        var k :| 0 < k < |y| && !IsWordChar(y[k]);
        assert s[|x| + k] == y[k];
      }
    }
  }

  /** No four digits in a row: no date can start inside the text. */
  predicate NoDigitRun(pre: string) {
    forall k :: 0 <= k && k + 4 <= |pre| ==> !(DigitPairAt(pre, k) && DigitPairAt(pre, k + 2))
  }

  /** No date starts inside a text without four digits in a row, when four
      digits follow it. */
  lemma NoDateInPrefix(pre: string, rest: string)
    requires NoDigitRun(pre) && DigitPairAt(rest, 0) && DigitPairAt(rest, 2)
    ensures forall k :: 0 <= k < |pre| ==> !DateAt(pre + rest, k)
  {
    var name := pre + rest;
    var P := |pre|;
    forall k | 0 <= k < P ensures !DateAt(name, k) {
      if k + 4 <= P {
        assert !(DigitPairAt(pre, k) && DigitPairAt(pre, k + 2));
        assert name[k] == pre[k] && name[k + 1] == pre[k + 1] && name[k + 2] == pre[k + 2] && name[k + 3] == pre[k + 3];
      } else if k + 10 <= |name| {
        assert name[k + 4] == rest[k + 4 - P];
      }
    }
  }

  /** Rule 2 matches at `P` a date, a separator, a clock without seconds and
      an optional extension. */
  lemma SuffixReads(name: string, P: nat, d: string, sep: char, hm: string, ext: string)
    requires IsDateText(d) && (sep == '-' || sep == '_')
    requires |hm| == 5 && DigitPairAt(hm, 0) && hm[2] == '-' && DigitPairAt(hm, 3)
    requires P + 16 <= |name| && name[P..P + 10] == d && name[P + 10] == sep && name[P + 11..P + 16] == hm
    requires ExtensionTailAt(name, P + 16) && (P + 16 < |name| ==> name[P + 16] == '.')
    ensures SuffixAt(name, P) && !SuffixSeconds(name, P)
    ensures Clock(name, P + 11, false) == hm[..2] + ":" + hm[3..] + ":00"
  {
    assert forall k :: 0 <= k < 10 ==> name[P + k] == d[k];
    assert forall k :: 0 <= k < 5 ==> name[P + 11 + k] == hm[k];
    assert DateAt(name, P);
    assert ClockAt(name, P + 11);
  }

  /** Where the pieces of a dated name stand. */
  lemma SuffixLayout(pre: string, d: string, sep: char, hm: string, ext: string)
    requires |d| == 10 && |hm| == 5 && ExtensionTailAt(ext, 0)
    ensures var name := pre + d + [sep] + hm + ext; var P := |pre|;
      name == pre + (d + [sep] + hm + ext) && (d + [sep] + hm + ext)[..4] == d[..4]
      && name[P..P + 10] == d && name[P + 10] == sep && name[P + 11..P + 16] == hm
      && ExtensionTailAt(name, P + 16) && (P + 16 < |name| ==> name[P + 16] == '.')
  {
    var name := pre + d + [sep] + hm + ext;
    var P := |pre|;
    ExtensionTailShift(pre + d + [sep] + hm, ext);
    assert P + 16 < |name| ==> name[P + 16] == ext[0];
  }

  /** A name that ends in a date, `-` or `_`, a clock without seconds and an
      optional extension, with no four digits in a row before the date,
      gives that date and `HH:MM:00`. */
  lemma SuffixRoundTrip(pre: string, d: string, sep: char, hm: string, ext: string)
    requires NoDigitRun(pre)
    requires IsDateText(d) && (sep == '-' || sep == '_')
    requires |hm| == 5 && DigitPairAt(hm, 0) && hm[2] == '-' && DigitPairAt(hm, 3)
    requires ExtensionTailAt(ext, 0)
    ensures ParseDateTimeFlexible(pre + d + [sep] + hm + ext) == DateTime(d, hm[..2] + ":" + hm[3..] + ":00")
  {
    var name := pre + d + [sep] + hm + ext;
    var P := |pre|;
    SuffixLayout(pre, d, sep, hm, ext);
    NoDateInPrefix(pre, d + [sep] + hm + ext);
    SuffixReads(name, P, d, sep, hm, ext);
    if P == 0 && sep == '_' {
      PrefixSingleUnderscore(name);
    } else {
      SuffixWins(name, P);
    }
  }

  /** A name that ends in a date, `-` or `_`, a full clock with seconds and
      an optional extension, with no four digits in a row before the date,
      gives that date and clock: the greedy seconds group takes them. */
  lemma SuffixSecondsRoundTrip(pre: string, d: string, sep: char, t: string, ext: string)
    requires NoDigitRun(pre)
    requires IsDateText(d) && (sep == '-' || sep == '_') && IsTimeText(t)
    requires ExtensionTailAt(ext, 0)
    ensures ParseDateTimeFlexible(pre + d + [sep] + TimeWith(t, '-') + ext) == DateTime(d, t)
  {
    var u := TimeWith(t, '-');
    var name := pre + d + [sep] + u + ext;
    var P := |pre|;
    TimeWithShape(t, '-');
    SuffixSecondsLayout(pre, d, sep, u, ext);
    NoDateInPrefix(pre, d + [sep] + u + ext);
    SuffixSecondsReads(name, P, d, sep, t);
    if P == 0 && sep == '_' {
      PrefixSingleUnderscore(name);
    } else {
      SuffixWins(name, P);
    }
  }

  /** Where the pieces of a name dated with seconds stand. */
  lemma SuffixSecondsLayout(pre: string, d: string, sep: char, u: string, ext: string)
    requires |d| == 10 && |u| == 8 && ExtensionTailAt(ext, 0)
    ensures var name := pre + d + [sep] + u + ext; var P := |pre|;
      name == pre + (d + [sep] + u + ext) && (d + [sep] + u + ext)[..4] == d[..4]
      && name[P..P + 10] == d && name[P + 10] == sep && name[P + 11..P + 19] == u
      && ExtensionTailAt(name, P + 19) && (P + 19 < |name| ==> name[P + 19] == '.')
  {
    var name := pre + d + [sep] + u + ext;
    var P := |pre|;
    ExtensionTailShift(pre + d + [sep] + u, ext);
    assert P + 19 < |name| ==> name[P + 19] == ext[0];
  }

  /** Rule 2 matches at `P` a date, a separator, a full clock and an
      optional extension, and takes the seconds. */
  lemma SuffixSecondsReads(name: string, P: nat, d: string, sep: char, t: string)
    requires IsDateText(d) && (sep == '-' || sep == '_') && IsTimeText(t)
    requires P + 19 <= |name| && name[P..P + 10] == d && name[P + 10] == sep
    requires name[P + 11..P + 19] == t[..2] + ['-'] + t[3..5] + ['-'] + t[6..]
    requires ExtensionTailAt(name, P + 19)
    ensures SuffixAt(name, P) && SuffixSeconds(name, P)
    ensures Clock(name, P + 11, true) == t
  {
    assert forall k :: 0 <= k < 10 ==> name[P + k] == d[k];
    assert DateAt(name, P);
    var w := name[P + 11..P + 19];
    forall k | 0 <= k < 8 ensures name[P + 11 + k] == if k == 2 || k == 5 then '-' else t[k] {
      assert name[P + 11 + k] == w[k];
    }
    ClockReadsBack(name, P + 11, t);
  }

  /** Rule 3: with no rule-1 or rule-2 match, the leftmost date anywhere in
      the name is taken, with an empty time. */
  lemma BareDateRule(name: string, P: nat)
    requires DateAt(name, P) && forall k :: 0 <= k < P ==> !DateAt(name, k)
    requires forall i :: !SuffixAt(name, i)
    requires P == 0 ==> PrefixRule(name) == None
    ensures ParseDateTimeFlexible(name) == DateTime(name[P..P + 10], "")
  {
    if P > 0 {
      assert !DateAt(name, 0);
    }
    assert PrefixRule(name) == None;
    assert FirstSuffixFrom(name, 0) == None;
    assert FirstDateFrom(name, 0) == Some(P);
  }

  /** A note named after its day only: `randomnote_2025-10-16.html` is dated
      2025-10-16 with no time. */
  lemma BareDateExample()
    ensures ParseDateTimeFlexible("randomnote_2025-10-16.html") == DateTime("2025-10-16", "")
  {
    var name := "randomnote_2025-10-16.html";
    assert |name| == 26;
    assert DateAt(name, 11);
    forall k | 0 <= k < 11 ensures !DateAt(name, k) {
      assert !IsDigit(name[k]);
    }
    ExampleHasNoSuffix(name);
    assert name[11..21] == "2025-10-16";
    BareDateRule(name, 11);
  }

  /** Rule 2 matches nowhere in the example: its only date is followed by
      the extension, not by a separator and a clock. */
  lemma ExampleHasNoSuffix(name: string)
    requires name == "randomnote_2025-10-16.html"
    ensures forall i :: !SuffixAt(name, i)
  {
    assert |name| == 26;
    forall i: nat ensures !SuffixAt(name, i) {
      if i < 11 {
        assert !DateAt(name, i);
      } else if i == 11 {
        assert name[21] == '.';
      }
    }
  }

  /** A name that starts with a date, one underscore and a clock goes by
      rule 1, with the seconds when they follow. */
  lemma PrefixSingleUnderscore(name: string)
    requires DateAt(name, 0) && |name| > 11 && name[10] == '_' && name[11] != '_'
    requires ClockAt(name, 11)
    ensures ParseDateTimeFlexible(name) == DateTime(name[..10], Clock(name, 11, SecondsAt(name, 16)))
  {
    assert PrefixRule(name) == Some(DateTime(name[..10], Clock(name, 11, SecondsAt(name, 16))));
  }

  /** When rule 1 does not apply and rule 2 first matches at `P`, the name
      goes by rule 2 at `P`, with the seconds when rule 2 takes them. */
  lemma SuffixWins(name: string, P: nat)
    requires SuffixAt(name, P)
    requires forall k :: 0 <= k < P ==> !DateAt(name, k)
    requires P == 0 ==> name[10] != '_'
    ensures ParseDateTimeFlexible(name) == DateTime(name[P..P + 10], Clock(name, P + 11, SuffixSeconds(name, P)))
  {
    if P > 0 {
      assert !DateAt(name, 0);
    }
    assert PrefixRule(name) == None;
    FirstSuffixIs(name, P);
  }

  lemma FirstSuffixIs(name: string, P: nat)
    requires SuffixAt(name, P)
    requires forall k :: 0 <= k < P ==> !DateAt(name, k)
    ensures FirstSuffixFrom(name, 0) == Some(P)
  {
  }

  // ======================================================= entries and records

  datatype Category = Diario | Extras | Libros | Pensamientos

  function CategoryName(c: Category): string {
    match c
    case Diario => "diario"
    case Extras => "extras"
    case Libros => "libros"
    case Pensamientos => "pensamientos"
  }

  const HtmlExtensions: seq<string> := [".html", ".htm"]
  const AudioExtensions: seq<string> := [".mp3", ".m4a", ".ogg", ".wav", ".opus"]

  /** What reading an entry's file gives: its text, or a failure. */
  datatype Contents = Text(html: string) | Unreadable

  /** One directory entry: its name, whether it is a plain file, and what
      reading it would give (only books' chapters are read). */
  datatype Entry = Entry(name: string, isFile: bool, contents: Contents)

  /** One index record. An absent key of the JSON object is `None`. */
  datatype Record = Record(
    path: string, date: string, time: Option<string>,
    place: Option<string>, tema: Option<string>,
    libro: Option<string>, capitulo: Option<string>, titulo: Option<string>,
    prev: Option<string>, next: Option<string>)

  /** `path.extname` for a name without `/`: from the last dot on, except
      when that dot starts the name, and for `..`. */
  function ExtName(name: string): (ext: string)
    ensures ext == "" || (ext[0] == '.' && '.' !in ext[1..] && |ext| < |name| && ext == name[|name| - |ext|..])
    ensures '.' !in name ==> ext == ""
  {
    match LastIndexOf(name, '.')
    case None => ""
    case Some(d) => if d == 0 || name == ".." then "" else name[d..]
  }

  /** `name.replace(/\.[^.]+$/, '')`: drops the last dot and what follows
      it, when something follows it. */
  function StripExtension(name: string): (base: string)
    ensures base == name || (|base| < |name| && base == name[..|base|] && name[|base|] == '.')
  {
    match LastIndexOf(name, '.')
    case None => name
    case Some(d) => if d + 1 < |name| then name[..d] else name
  }

  /** `s.replace(/\.html?$/i, '')`. */
  function StripHtmlSuffix(s: string): string {
    if EndsWithIgnoreCase(s, ".html") then s[..|s| - 5]
    else if EndsWithIgnoreCase(s, ".htm") then s[..|s| - 4]
    else s
  }

  /** The path a record gives for an entry of a category. */
  function PathOf(cat: Category, name: string): string {
    "data/" + CategoryName(cat) + "/" + name
  }

  /** Different entries get different paths. */
  lemma PathOfInjective(cat: Category, a: string, b: string)
    requires PathOf(cat, a) == PathOf(cat, b)
    ensures a == b
  {
    var n := |"data/" + CategoryName(cat) + "/"|;
    assert a == PathOf(cat, a)[n..] && b == PathOf(cat, b)[n..];
  }

  /** The extensions (lower-cased) a category takes in. */
  predicate Accepts(cat: Category, ext: string) {
    ext in HtmlExtensions || (cat == Pensamientos && ext in AudioExtensions)
  }

  /** The strict parser, and the flexible one when it finds no date. */
  function ResolvedDateTime(name: string): DateTime {
    var dt := ParseDateTimeFromName(name);
    if dt.date == "" then ParseDateTimeFlexible(name) else dt
  }

  lemma ResolvedIsFlexible(name: string)
    ensures ResolvedDateTime(name) == ParseDateTimeFlexible(name)
  {
    if ParseDateTimeFromName(name).date != "" { FlexibleSubsumesStrict(name); }
  }

  // ----------------------------------------------------- chapter heading

  /** `<[^>]+>` at position `i`: a `<`, at least one character other than
      `>`, and a `>` further on. */
  predicate TagAt(s: string, i: nat) {
    i + 1 < |s| && s[i] == '<' && s[i + 1] != '>' && '>' in s[i + 2..]
  }

  predicate HasNoTag(s: string) {
    forall i :: 0 <= i < |s| ==> !TagAt(s, i)
  }

  /** `s.replace(/<[^>]+>/g, '')`: left to right, each tag is removed, up to
      the first `>` after its first character. */
  function StripTags(s: string): (r: string)
    ensures forall c :: c in r ==> c in s
    ensures |r| <= |s|
  {
    if s == [] then []
    else if TagAt(s, 0) then
      var q := FindChar(s, '>', 2).value;
      StripTags(s[q + 1..])
    else [s[0]] + StripTags(s[1..])
  }

  /** No tag is left after stripping: removal never joins two pieces into a
      new tag. */
  lemma {:induction false} StripTagsLeavesNoTag(s: string)
    ensures HasNoTag(StripTags(s))
  {
    if s == [] {
    } else if TagAt(s, 0) {
      var q := FindChar(s, '>', 2).value;
      StripTagsLeavesNoTag(s[q + 1..]);
    } else {
      var rest := StripTags(s[1..]);
      StripTagsLeavesNoTag(s[1..]);
      var r := [s[0]] + rest;
      forall i | 0 <= i < |r| ensures !TagAt(r, i) {
        if i == 0 {
          KeptCharStartsNoTag(s);
        } else {
          TagShift(s[0], rest, i);
        }
      }
    }
  }

  /** A kept first character does not start a tag once the rest is stripped. */
  lemma KeptCharStartsNoTag(s: string)
    requires s != [] && !TagAt(s, 0)
    ensures !TagAt([s[0]] + StripTags(s[1..]), 0)
  {
  }

  lemma TagShift(c: char, rest: string, i: nat)
    requires 0 < i
    ensures TagAt([c] + rest, i) == TagAt(rest, i - 1)
  {
    var r := [c] + rest;
    if i + 1 < |r| {
      assert r[i] == rest[i - 1] && r[i + 1] == rest[i];
      assert r[i + 2..] == rest[i + 1..];
    }
  }

  /** A tag-free text stays tag-free when cut down to an infix. */
  lemma NoTagInInfix(s: string, a: nat, n: nat)
    requires HasNoTag(s) && a + n <= |s|
    ensures HasNoTag(s[a..a + n])
  {
    var t := s[a..a + n];
    forall i | 0 <= i < |t| ensures !TagAt(t, i) {
      if TagAt(t, i) {
        TagInInfix(s, a, n, i);
      }
    }
  }

  /** A tag inside a slice is a tag of the whole string. */
  lemma TagInInfix(s: string, a: nat, n: nat, i: nat)
    requires a + n <= |s| && TagAt(s[a..a + n], i)
    ensures TagAt(s, a + i)
  {
    var t := s[a..a + n];
    var k :| i + 2 <= k < |t| && t[k] == '>';
    assert s[a + k] == '>';
    assert s[a + k] in s[a + i + 2..];
  }

  /** Text without tags is left as it is. */
  lemma {:induction false} StripTagsNoTag(s: string)
    requires HasNoTag(s)
    ensures StripTags(s) == s
  {
    if s != [] {
      assert s == [s[0]] + s[1..];
      forall i | 0 <= i < |s[1..]| ensures !TagAt(s[1..], i) {
        TagShift(s[0], s[1..], i + 1);
      }
      StripTagsNoTag(s[1..]);
    }
  }

  /** A stretch without `<` is kept as it is, whatever follows it. */
  lemma {:induction false} StripTagsKeepsPlain(x: string, y: string)
    requires '<' !in x
    ensures StripTags(x + y) == x + StripTags(y)
  {
    if x != [] {
      assert x[0] in x;
      assert (x + y)[0] == x[0];
      assert (x + y)[1..] == x[1..] + y;
      assert forall c :: c in x[1..] ==> c in x;
      assert !TagAt(x + y, 0);
      assert StripTags(x + y) == [x[0]] + StripTags(x[1..] + y);
      StripTagsKeepsPlain(x[1..], y);
      assert x == [x[0]] + x[1..];
    } else {
      assert x + y == y;
    }
  }

  /** A tag `<g>` is removed whole, and what follows is stripped on. */
  lemma StripTagsDropsTag(g: string, y: string)
    requires g != [] && '>' !in g
    ensures StripTags("<" + g + ">" + y) == StripTags(y)
  {
    var s := "<" + g + ">" + y;
    var q := |g| + 1;
    assert s[1] == g[0] && s[q] == '>';
    assert forall k :: 1 <= k < q ==> s[k] == g[k - 1];
    assert '>' in s[2..] by {
      assert s[2..][q - 2] == '>';
    }
    assert TagAt(s, 0);
    assert FindChar(s, '>', 2) == Some(q);
    assert s[q + 1..] == y;
  }

  /** `<h3[^>]*>([\s\S]*?)<\/h3>` (`i` flag) tried at position `o`: the
      opening tag ends at the first `>` after `<h3`, and a closing tag
      follows it somewhere. */
  predicate H3At(s: string, o: nat) {
    MatchesAtIgnoreCase(s, o, "<h3") && FindChar(s, '>', o + 3).Some?
    && FindIgnoreCase(s, "</h3>", FindChar(s, '>', o + 3).value + 1).Some?
  }

  /** The leftmost position at or after `i` where the heading pattern
      matches. */
  function FirstH3From(s: string, i: nat): (r: Option<nat>)
    decreases |s| - i
    ensures r.Some? ==> i <= r.value && H3At(s, r.value)
    ensures r.Some? ==> forall k :: i <= k < r.value ==> !H3At(s, k)
    ensures r.None? ==> forall k :: i <= k ==> !H3At(s, k)
  {
    if i >= |s| then None
    else if H3At(s, i) then Some(i)
    else FirstH3From(s, i + 1)
  }

  /** The text captured by the heading matched at `o`: from its opening
      tag's `>` to the first `</h3>` after it, which it does not hold. */
  function H3Text(s: string, o: nat): (r: string)
    requires H3At(s, o)
    ensures forall k :: 0 <= k && k + 5 <= |r| ==> !MatchesAtIgnoreCase(r, k, "</h3>")
  {
    var a := FindChar(s, '>', o + 3).value + 1;
    var b := FindIgnoreCase(s, "</h3>", a).value;
    var r := s[a..b];
    forall k | 0 <= k && k + 5 <= |r| ensures !MatchesAtIgnoreCase(r, k, "</h3>") {
      SliceMatch(s, a, b, k, "</h3>");
    }
    r
  }

  /** The chapter title: the text of the first `<h3>` element with its tags
      removed, trimmed; absent exactly when no heading matches. */
  function H3Title(html: string): (r: Option<string>)
    ensures r.Some? ==> HasNoTag(r.value)
    ensures r.Some? ==> r.value == [] || (!IsSpace(r.value[0]) && !IsSpace(r.value[|r.value| - 1]))
    ensures r.None? <==> forall k :: !H3At(html, k)
  {
    match FirstH3From(html, 0)
    case None => None
    case Some(o) =>
      TrimmedTextHasNoTag(H3Text(html, o));
      Some(Trim(StripTags(H3Text(html, o))))
  }

  /** A page whose first heading is `<h3>…</h3>` around a text holding no
      closing `</h3>` is titled by that text, tags removed and trimmed. */
  lemma H3TitleOfPage(pre: string, t: string, post: string)
    requires forall k :: !MatchesAtIgnoreCase(pre, k, "<h3")
    requires forall k :: !MatchesAtIgnoreCase(t, k, "</h3>")
    ensures H3Title(pre + "<h3>" + t + "</h3>" + post) == Some(Trim(StripTags(t)))
  {
    var html := pre + "<h3>" + t + "</h3>" + post;
    var P := |pre|;
    H3PageLayout(pre, t, post, P, P + 4, P + 4 + |t|);
    H3TitleOfLayout(html, pre, t, P, P + 4, P + 4 + |t|);
  }

  /** Where the pieces of a page with a heading stand: the opening tag at
      `P`, the text from `Q`, the closing tag at `E`. */
  lemma H3PageLayout(pre: string, t: string, post: string, P: nat, Q: nat, E: nat)
    requires P == |pre| && Q == P + 4 && E == Q + |t|
    ensures var html := pre + "<h3>" + t + "</h3>" + post;
      |html| == E + 5 + |post|
      && (forall i :: 0 <= i < P ==> html[i] == pre[i])
      && (forall i :: P <= i < P + 3 ==> html[i] == "<h3"[i - P])
      && html[P + 3] == '>'
      && (forall i :: Q <= i < E ==> html[i] == t[i - Q])
      && (forall i :: E <= i < E + 5 ==> html[i] == "</h3>"[i - E])
  {
  }

  lemma H3TitleOfLayout(html: string, pre: string, t: string, P: nat, Q: nat, E: nat)
    requires forall k :: !MatchesAtIgnoreCase(pre, k, "<h3")
    requires forall k :: !MatchesAtIgnoreCase(t, k, "</h3>")
    requires P == |pre| && Q == P + 4 && E == Q + |t| && E + 5 <= |html|
    requires forall i :: 0 <= i < P ==> html[i] == pre[i]
    requires forall i :: P <= i < P + 3 ==> html[i] == "<h3"[i - P]
    requires html[P + 3] == '>'
    requires forall i :: Q <= i < E ==> html[i] == t[i - Q]
    requires forall i :: E <= i < E + 5 ==> html[i] == "</h3>"[i - E]
    ensures H3Title(html) == Some(Trim(StripTags(t)))
  {
    H3AtCopy(html, t, P, Q, E);
    NoH3Before(html, pre);
    FirstH3Is(html, P);
  }

  /** `<h3>`, a text without `</h3>` and `</h3>`, laid out from `P`: a
      heading whose text is that text. */
  lemma H3AtCopy(html: string, t: string, P: nat, Q: nat, E: nat)
    requires forall k :: !MatchesAtIgnoreCase(t, k, "</h3>")
    requires Q == P + 4 && E == Q + |t| && E + 5 <= |html|
    requires forall i :: P <= i < P + 3 ==> html[i] == "<h3"[i - P]
    requires html[P + 3] == '>'
    requires forall i :: Q <= i < E ==> html[i] == t[i - Q]
    requires forall i :: E <= i < E + 5 ==> html[i] == "</h3>"[i - E]
    ensures H3At(html, P) && H3Text(html, P) == t
  {
    H3TagsFoldFixed();
    MatchesCopy(html, P, "<h3");
    MatchesCopy(html, E, "</h3>");
    assert html[E] == "</h3>"[E - E];
    H3TextHasNoClose(html, Q, t);
    SliceCopy(html, Q, t);
    H3TextIs(html, P, Q, E);
  }

  lemma H3TextIs(s: string, o: nat, q: nat, e: nat)
    requires q == o + 4 && q <= e && MatchesAtIgnoreCase(s, e, "</h3>")
    requires MatchesAtIgnoreCase(s, o, "<h3") && s[o + 3] == '>'
    requires forall k :: q <= k < e ==> !MatchesAtIgnoreCase(s, k, "</h3>")
    ensures H3At(s, o) && H3Text(s, o) == s[q..e]
  {
    assert FindChar(s, '>', o + 3) == Some(o + 3);
    assert FindIgnoreCase(s, "</h3>", q) == Some(e);
  }

  lemma FirstH3Is(s: string, P: nat)
    requires H3At(s, P) && forall k :: 0 <= k < P ==> !H3At(s, k)
    ensures FirstH3From(s, 0) == Some(P)
  {
  }

  lemma H3TagsFoldFixed()
    ensures FoldFixed("<h3") && FoldFixed("</h3>")
  {
  }

  /** No `</h3>` starts inside the copied text when a `<` follows it. */
  lemma H3TextHasNoClose(html: string, lo: nat, t: string)
    requires forall k :: !MatchesAtIgnoreCase(t, k, "</h3>")
    requires lo + |t| < |html| && html[lo + |t|] == '<'
    requires forall i :: lo <= i < lo + |t| ==> html[i] == t[i - lo]
    ensures forall k :: lo <= k < lo + |t| ==> !MatchesAtIgnoreCase(html, k, "</h3>")
  {
    assert StartOnly("</h3>", AsciiFold(html[lo + |t|]));
    forall k | lo <= k < lo + |t| ensures !MatchesAtIgnoreCase(html, k, "</h3>") {
      NoMatchAcross(html, lo, t, "</h3>", k);
    }
  }

  /** No heading starts inside a prefix without `<h3` that is followed by
      a `<`. */
  lemma NoH3Before(html: string, pre: string)
    requires forall k :: !MatchesAtIgnoreCase(pre, k, "<h3")
    requires |pre| < |html| && html[|pre|] == '<'
    requires forall i :: 0 <= i < |pre| ==> html[i] == pre[i]
    ensures forall k :: 0 <= k < |pre| ==> !H3At(html, k)
  {
    assert StartOnly("<h3", AsciiFold(html[|pre|]));
    forall k | 0 <= k < |pre| ensures !H3At(html, k) {
      NoMatchAcross(html, 0, pre, "<h3", k);
    }
  }

  lemma TrimmedTextHasNoTag(x: string)
    ensures HasNoTag(Trim(StripTags(x)))
  {
    StripTagsLeavesNoTag(x);
    TrimKeepsNoTag(StripTags(x));
  }

  lemma TrimKeepsNoTag(s: string)
    requires HasNoTag(s)
    ensures HasNoTag(Trim(s))
  {
    var r := Trim(s);
    var o := TrimOffset(s);
    assert r == s[o..o + |r|];
    NoTagInInfix(s, o, |r|);
  }

  /** What the books category records as `titulo`: nothing when the file
      cannot be read. */
  function ChapterTitle(c: Contents): Option<string> {
    match c
    case Unreadable => None
    case Text(html) => H3Title(html)
  }

  // ------------------------------------------------------- one record

  /** The loop body of `buildForCategory`: the record an entry yields, or
      nothing when the entry is skipped. */
  function BuildRecord(cat: Category, e: Entry): (r: Option<Record>)
    ensures r.Some? <==> e.isFile && Accepts(cat, Lower(ExtName(e.name)))
    ensures r.Some? ==> r.value.path == PathOf(cat, e.name)
    ensures r.Some? ==> r.value.prev.None? && r.value.next.None?
    ensures r.Some? ==> (r.value.time.None? <==> cat == Extras)
    ensures r.Some? ==> (r.value.tema.Some? <==> cat == Extras)
    ensures r.Some? ==> (r.value.place.Some? <==> cat == Diario)
    ensures r.Some? ==> (r.value.libro.Some? <==> cat == Libros) && (r.value.capitulo.Some? <==> cat == Libros)
    ensures r.Some? && r.value.titulo.Some? ==> cat == Libros && e.contents.Text?
  {
    var ext := Lower(ExtName(e.name));
    if !e.isFile || !Accepts(cat, ext) then None
    else
      var item := Record(PathOf(cat, e.name), "", Some(""),
                         None, None, None, None, None, None, None);
      if ext in HtmlExtensions then
        var dt := ResolvedDateTime(e.name);
        var item := item.(date := dt.date, time := Some(dt.time));
        var parts := Split(StripExtension(e.name), '_');
        var item :=
          if cat == Extras then
            var fechaParte := StripHtmlSuffix(Part(parts, 2));
            item.(date := if fechaParte != "" then fechaParte else item.date, time := None,
                  tema := Some(Part(parts, 1)))
          else item;
        var item := if cat == Diario then item.(place := Some(Last(parts))) else item;
        var item :=
          if cat == Libros then
            item.(libro := Some(Part(parts, 0)), capitulo := Some(Part(parts, 1)),
                  titulo := ChapterTitle(e.contents))
          else item;
        Some(item)
      else
        var wa := ParseWhatsAppAudio(e.name);
        Some(item.(date := wa.date, time := Some(wa.time)))
  }

  /** Audio entries of the thoughts category take their date and time from
      the audio-export parser alone, and nothing of their contents. */
  lemma AudioRecord(e: Entry)
    requires e.isFile && Lower(ExtName(e.name)) in AudioExtensions
    ensures BuildRecord(Pensamientos, e).Some?
    ensures BuildRecord(Pensamientos, e).value.date == ParseWhatsAppAudio(e.name).date
    ensures BuildRecord(Pensamientos, e).value.time == Some(ParseWhatsAppAudio(e.name).time)
    ensures forall c :: BuildRecord(Pensamientos, e.(contents := c)) == BuildRecord(Pensamientos, e)
  {
    assert Lower(ExtName(e.name)) !in HtmlExtensions;
  }

  /** HTML entries of every category take their date and time from the
      filename (extras may override the date), never from the contents. */
  lemma HtmlRecordDate(cat: Category, e: Entry)
    requires e.isFile && Lower(ExtName(e.name)) in HtmlExtensions && cat != Extras
    ensures BuildRecord(cat, e).value.date == ParseDateTimeFlexible(e.name).date
    ensures BuildRecord(cat, e).value.time == Some(ParseDateTimeFlexible(e.name).time)
  {
    ResolvedIsFlexible(e.name);
  }

  /** A character that is neither the separator nor in any part is not in
      the joined text. */
  lemma {:induction false} JoinAvoids(parts: seq<string>, sep: char, c: char)
    requires |parts| >= 1 && c != sep
    requires forall i :: 0 <= i < |parts| ==> c !in parts[i]
    ensures c !in Join(parts, sep)
  {
    if |parts| > 1 {
      JoinAvoids(parts[1..], sep, c);
    }
  }

  /** The naming convention of the categories: underscore-separated parts
      and an extension. Such a name has that extension, and its base splits
      back into the parts. */
  lemma NamePartsRoundTrip(parts: seq<string>, ext: string)
    requires |parts| >= 1 && parts[0] != []
    requires forall i :: 0 <= i < |parts| ==> '_' !in parts[i] && '.' !in parts[i]
    requires |ext| >= 2 && ext[0] == '.' && '.' !in ext[1..]
    ensures ExtName(Join(parts, '_') + ext) == ext
    ensures StripExtension(Join(parts, '_') + ext) == Join(parts, '_')
    ensures Split(StripExtension(Join(parts, '_') + ext), '_') == parts
  {
    var j := Join(parts, '_');
    JoinAvoids(parts, '_', '.');
    JoinStartsWithFirst(parts, '_');
    NameWithExtension(j, ext);
    SplitJoin(parts, '_');
  }

  /** A dot-free, non-empty base followed by an extension: the extension is
      `path.extname`'s, and stripping it gives the base back. */
  lemma NameWithExtension(j: string, ext: string)
    requires j != [] && '.' !in j
    requires |ext| >= 2 && ext[0] == '.' && '.' !in ext[1..]
    ensures ExtName(j + ext) == ext && StripExtension(j + ext) == j
  {
    LastDotBeforeExtension(j, ext);
    var name := j + ext;
    assert name[..|j|] == j && name[|j|..] == ext;
  }

  lemma JoinStartsWithFirst(parts: seq<string>, sep: char)
    requires |parts| >= 1
    ensures |Join(parts, sep)| >= |parts[0]| && Join(parts, sep)[..|parts[0]|] == parts[0]
  {
    if |parts| > 1 {
      var rest := Join(parts[1..], sep);
      assert Join(parts, sep) == parts[0] + ([sep] + rest);
    }
  }

  lemma LastDotBeforeExtension(j: string, ext: string)
    requires '.' !in j && |ext| >= 1 && ext[0] == '.' && '.' !in ext[1..]
    ensures LastIndexOf(j + ext, '.') == Some(|j|)
  {
    var name := j + ext;
    assert name[|j|] == '.';
  }

  /** The fields a books chapter takes from its name: the book is the first
      part and the chapter the second; the title comes from the contents. */
  lemma BooksRecordFromName(name: string, parts: seq<string>, ext: string, contents: Contents)
    requires |parts| >= 1 && parts[0] != []
    requires forall i :: 0 <= i < |parts| ==> '_' !in parts[i] && '.' !in parts[i]
    requires |ext| >= 2 && ext[0] == '.' && '.' !in ext[1..] && Lower(ext) in HtmlExtensions
    requires name == Join(parts, '_') + ext
    ensures BuildRecord(Libros, Entry(name, true, contents)).Some?
    ensures BuildRecord(Libros, Entry(name, true, contents)).value.libro == Some(parts[0])
    ensures BuildRecord(Libros, Entry(name, true, contents)).value.capitulo == Some(Part(parts, 1))
    ensures BuildRecord(Libros, Entry(name, true, contents)).value.titulo == ChapterTitle(contents)
  {
    ConventionalHtmlName(name, parts, ext);
    HtmlRecordFields(Libros, Entry(name, true, contents));
  }

  /** The place of a diary entry is the last part of its name. */
  lemma DiaryRecordFromName(name: string, parts: seq<string>, ext: string)
    requires |parts| >= 1 && parts[0] != []
    requires forall i :: 0 <= i < |parts| ==> '_' !in parts[i] && '.' !in parts[i]
    requires |ext| >= 2 && ext[0] == '.' && '.' !in ext[1..] && Lower(ext) in HtmlExtensions
    requires name == Join(parts, '_') + ext
    ensures BuildRecord(Diario, Entry(name, true, Unreadable)).Some?
    ensures BuildRecord(Diario, Entry(name, true, Unreadable)).value.place == Some(parts[|parts| - 1])
  {
    ConventionalHtmlName(name, parts, ext);
    HtmlRecordFields(Diario, Entry(name, true, Unreadable));
  }

  /** An extra's topic is the second part of its name and its date the third
      part when there is one; the time key is absent. */
  lemma ExtraRecordFromName(name: string, parts: seq<string>, ext: string)
    requires |parts| >= 1 && parts[0] != []
    requires forall i :: 0 <= i < |parts| ==> '_' !in parts[i] && '.' !in parts[i]
    requires |ext| >= 2 && ext[0] == '.' && '.' !in ext[1..] && Lower(ext) in HtmlExtensions
    requires name == Join(parts, '_') + ext
    ensures BuildRecord(Extras, Entry(name, true, Unreadable)).Some?
    ensures BuildRecord(Extras, Entry(name, true, Unreadable)).value.tema == Some(Part(parts, 1))
    ensures BuildRecord(Extras, Entry(name, true, Unreadable)).value.time == None
  {
    ConventionalHtmlName(name, parts, ext);
    HtmlRecordFields(Extras, Entry(name, true, Unreadable));
  }

  /** An extra's date is the third part of its name when there is one, else
      the date found in the name. */
  lemma ExtraDateFromName(name: string, parts: seq<string>, ext: string)
    requires |parts| >= 1 && parts[0] != []
    requires forall i :: 0 <= i < |parts| ==> '_' !in parts[i] && '.' !in parts[i]
    requires |ext| >= 2 && ext[0] == '.' && '.' !in ext[1..] && Lower(ext) in HtmlExtensions
    requires name == Join(parts, '_') + ext
    ensures BuildRecord(Extras, Entry(name, true, Unreadable)).Some?
    ensures BuildRecord(Extras, Entry(name, true, Unreadable)).value.date
            == if Part(parts, 2) != "" then Part(parts, 2) else ParseDateTimeFlexible(name).date
  {
    ConventionalHtmlName(name, parts, ext);
    PartHasNoDot(parts, 2);
    ExtraDate(name, Part(parts, 2));
  }

  lemma PartHasNoDot(parts: seq<string>, i: nat)
    requires forall k :: 0 <= k < |parts| ==> '_' !in parts[k] && '.' !in parts[k]
    ensures '.' !in Part(parts, i)
  {
  }

  lemma ExtraDate(name: string, f: string)
    requires Lower(ExtName(name)) in HtmlExtensions
    requires '.' !in f && f == Part(Split(StripExtension(name), '_'), 2)
    ensures BuildRecord(Extras, Entry(name, true, Unreadable)).value.date
            == if f != "" then f else ParseDateTimeFlexible(name).date
  {
    NoHtmlSuffixWithoutDot(f);
    HtmlRecordFields(Extras, Entry(name, true, Unreadable));
    ResolvedIsFlexible(name);
  }

  /** A name following the convention with an HTML extension is accepted
      as HTML, and its base splits into its parts. */
  lemma ConventionalHtmlName(name: string, parts: seq<string>, ext: string)
    requires |parts| >= 1 && parts[0] != []
    requires forall i :: 0 <= i < |parts| ==> '_' !in parts[i] && '.' !in parts[i]
    requires |ext| >= 2 && ext[0] == '.' && '.' !in ext[1..] && Lower(ext) in HtmlExtensions
    requires name == Join(parts, '_') + ext
    ensures Lower(ExtName(name)) in HtmlExtensions
    ensures Split(StripExtension(name), '_') == parts
  {
    NamePartsRoundTrip(parts, ext);
  }

  /** The fields an HTML entry takes from its name, category by category. */
  lemma HtmlRecordFields(cat: Category, e: Entry)
    requires e.isFile && Lower(ExtName(e.name)) in HtmlExtensions
    ensures BuildRecord(cat, e).Some?
    ensures cat == Libros ==>
      var parts := Split(StripExtension(e.name), '_');
      BuildRecord(cat, e).value.libro == Some(Part(parts, 0))
      && BuildRecord(cat, e).value.capitulo == Some(Part(parts, 1))
      && BuildRecord(cat, e).value.titulo == ChapterTitle(e.contents)
    ensures cat == Diario ==>
      BuildRecord(cat, e).value.place == Some(Last(Split(StripExtension(e.name), '_')))
    ensures cat == Extras ==>
      var parts := Split(StripExtension(e.name), '_');
      var f := StripHtmlSuffix(Part(parts, 2));
      BuildRecord(cat, e).value.tema == Some(Part(parts, 1))
      && BuildRecord(cat, e).value.time == None
      && BuildRecord(cat, e).value.date == if f != "" then f else ResolvedDateTime(e.name).date
  {
  }

  lemma NoHtmlSuffixWithoutDot(f: string)
    requires '.' !in f
    ensures StripHtmlSuffix(f) == f
  {
    if |f| >= 5 {
      assert f[|f| - 5] in f;
      assert AsciiFold(f[|f| - 5]) != ".html"[0];
    }
    if |f| >= 4 {
      assert f[|f| - 4] in f;
      assert AsciiFold(f[|f| - 4]) != ".htm"[0];
    }
  }

  /** What a loop that pushes `f(e)` for each entry `e` it accepts collects,
      in order. */
  function Collect<E, R>(f: E -> Option<R>, es: seq<E>): (rs: seq<R>)
    ensures |rs| <= |es|
  {
    if es == [] then []
    else
      var init := Collect(f, es[..|es| - 1]);
      match f(es[|es| - 1])
      case Some(r) => init + [r]
      case None => init
  }

  /** A value is collected exactly when some entry yields it. */
  lemma {:induction false} CollectMembers<E, R>(f: E -> Option<R>, es: seq<E>, r: R)
    ensures r in Collect(f, es) <==> exists e :: e in es && f(e) == Some(r)
  {
    if es != [] {
      var init := es[..|es| - 1];
      var last := es[|es| - 1];
      CollectMembers(f, init, r);
      assert es == init + [last];
      var rs := Collect(f, init);
      if r in Collect(f, es) {
        if r in rs {
          var e :| e in init && f(e) == Some(r);
          assert e in es;
        } else {
          assert f(last) == Some(r);
        }
      }
      if e :| e in es && f(e) == Some(r) {
        if e != last { assert e in init; }
      }
    }
  }

  /** When every collected value carries a mark of the entry it came from,
      and the entries' marks are distinct, the collected marks are distinct
      and each is the mark of an entry. */
  lemma {:induction false} CollectLabelsUnique<E, R>(f: E -> Option<R>, es: seq<E>, key: R -> string, mark: E -> string)
    requires forall i, j :: 0 <= i < j < |es| ==> mark(es[i]) != mark(es[j])
    requires forall e :: e in es && f(e).Some? ==> key(f(e).value) == mark(e)
    ensures forall i, j :: 0 <= i < j < |Collect(f, es)| ==> key(Collect(f, es)[i]) != key(Collect(f, es)[j])
    ensures forall k :: 0 <= k < |Collect(f, es)| ==> exists e :: e in es && key(Collect(f, es)[k]) == mark(e)
  {
    if es != [] {
      var init := es[..|es| - 1];
      var last := es[|es| - 1];
      assert forall e :: e in init ==> e in es;
      CollectLabelsUnique(f, init, key, mark);
      var rs := Collect(f, init);
      match f(last)
      case None =>
        assert Collect(f, es) == rs;
      case Some(r) =>
        assert last in es;
        forall k | 0 <= k < |rs| ensures key(rs[k]) != key(r) {
          var e :| e in init && key(rs[k]) == mark(e);
          var m :| 0 <= m < |init| && init[m] == e;
          assert es[m] == e;
        }
        assert Collect(f, es) == rs + [r];
        forall k | 0 <= k < |Collect(f, es)| ensures exists e :: e in es && key(Collect(f, es)[k]) == mark(e) {
          if k < |rs| {
            var e :| e in init && key(rs[k]) == mark(e);
            assert e in es;
          } else {
            assert key(Collect(f, es)[k]) == mark(last);
          }
        }
    } else {
      assert Collect(f, es) == [];
    }
  }

  /** The records of the accepted entries, in directory order: what the loop
      of `buildForCategory` pushes. */
  function BuiltRecords(cat: Category, es: seq<Entry>): seq<Record> {
    Collect(e => BuildRecord(cat, e), es)
  }

  /** Listing one more entry appends its record, if it yields one. */
  lemma CollectStep<E, R>(f: E -> Option<R>, es: seq<E>, i: nat)
    requires i < |es|
    ensures Collect(f, es[..i + 1]) == Collect(f, es[..i]) + (if f(es[i]).Some? then [f(es[i]).value] else [])
  {
    assert es[..i + 1][..i] == es[..i];
  }

  lemma BuiltRecordsStep(cat: Category, es: seq<Entry>, i: nat)
    requires i < |es|
    ensures BuiltRecords(cat, es[..i + 1])
      == BuiltRecords(cat, es[..i]) + (if BuildRecord(cat, es[i]).Some? then [BuildRecord(cat, es[i]).value] else [])
  {
    CollectStep(e => BuildRecord(cat, e), es, i);
  }

  /** A record is in the index exactly when some entry yields it. */
  lemma BuiltRecordsFromEntries(cat: Category, es: seq<Entry>, r: Record)
    ensures r in BuiltRecords(cat, es) <==> exists e :: e in es && BuildRecord(cat, e) == Some(r)
  {
    CollectMembers(e => BuildRecord(cat, e), es, r);
  }

  function RecordPath(r: Record): string { r.path }

  /** Entry names are unique in a directory, so paths are unique in the
      index; each path is the path of one of the entries. */
  lemma BuiltPathsUnique(cat: Category, es: seq<Entry>)
    requires forall i, j :: 0 <= i < j < |es| ==> es[i].name != es[j].name
    ensures UniquePaths(BuiltRecords(cat, es))
    ensures forall k :: 0 <= k < |BuiltRecords(cat, es)| ==> exists e :: e in es && BuiltRecords(cat, es)[k].path == PathOf(cat, e.name)
  {
    var mark := (e: Entry) => PathOf(cat, e.name);
    forall i, j | 0 <= i < j < |es| ensures mark(es[i]) != mark(es[j]) {
      if mark(es[i]) == mark(es[j]) { PathOfInjective(cat, es[i].name, es[j].name); }
    }
    CollectLabelsUnique(e => BuildRecord(cat, e), es, RecordPath, mark);
  }

  predicate UniquePaths(s: seq<Record>) {
    forall i, j :: 0 <= i < j < |s| ==> s[i].path != s[j].path
  }

  /** A reordering keeps paths unique. */
  lemma PermutationKeepsUniquePaths(s: seq<Record>, t: seq<Record>)
    requires UniquePaths(s) && multiset(s) == multiset(t)
    ensures UniquePaths(t)
  {
    forall i, j | 0 <= i < j < |t| ensures t[i].path != t[j].path {
      if t[i] == t[j] {
        assert multiset(t)[t[i]] >= 2 by {
          assert t == t[..j] + [t[j]] + t[j + 1..];
          assert t[i] in t[..j];
        }
        OnceInUniquePaths(s, t[i]);
      } else {
        assert t[i] in multiset(t) && t[j] in multiset(t);
        DistinctRecordsDistinctPaths(s, t[i], t[j]);
      }
    }
  }

  lemma DistinctRecordsDistinctPaths(s: seq<Record>, x: Record, y: Record)
    requires UniquePaths(s) && x in s && y in s && x != y
    ensures x.path != y.path
  {
    var a :| 0 <= a < |s| && s[a] == x;
    var b :| 0 <= b < |s| && s[b] == y;
    assert a != b;
  }

  lemma OnceInUniquePaths(s: seq<Record>, x: Record)
    requires UniquePaths(s)
    ensures multiset(s)[x] <= 1
  {
    if s != [] {
      var t := s[1..];
      assert s == [s[0]] + t;
      assert UniquePaths(t);
      OnceInUniquePaths(t, x);
      if s[0] == x { assert x !in t; }
    }
  }

  // ====================================================== newest first

  /** The time the sort uses: the record's time, or midnight when the time
      is missing or empty (extras have none; rule 3 gives ''). */
  function SortClock(r: Record): string {
    Or(r.time, "00:00:00")
  }

  /** The key `buildForCategory` sorts by: date and sort time with dashes
      for colons; the path when there is no date. */
  function SortKey(r: Record): string {
    if r.date != "" then r.date + "__" + ReplaceChar(SortClock(r), ':', '-') else r.path
  }

  lemma FirstDifference(x: string, y: string) returns (k: nat)
    requires |x| == |y| && Less(x, y)
    ensures k < |x| && x[..k] == y[..k] && x[k] < y[k]
  {
    if x[0] < y[0] {
      k := 0;
    } else {
      var k' := FirstDifference(x[1..], y[1..]);
      k := k' + 1;
      assert x[..k] == [x[0]] + x[1..][..k'];
      assert y[..k] == [y[0]] + y[1..][..k'];
    }
  }

  /** The sort law for dates: with well-formed dates, a later date gives a
      larger key, whatever the times (missing, empty or present). */
  lemma {:induction false} SortKeyOrdersByDate(a: Record, b: Record)
    requires IsDateText(a.date) && IsDateText(b.date) && Less(b.date, a.date)
    ensures Less(SortKey(b), SortKey(a))
  {
    var ka, kb := SortKey(a), SortKey(b);
    var k := FirstDifference(b.date, a.date);
    assert kb[..k] == b.date[..k] && ka[..k] == a.date[..k];
    assert kb[k] == b.date[k] && ka[k] == a.date[k];
    LessAtFirstDifference(kb, ka, k);
  }

  /** The sort law for times: on the same date, a later sort time gives a
      larger key. A missing or empty time counts as midnight. */
  lemma {:induction false} SortKeyOrdersByTime(a: Record, b: Record)
    requires IsDateText(a.date) && b.date == a.date
    requires IsTimeText(SortClock(a)) && IsTimeText(SortClock(b)) && Less(SortClock(b), SortClock(a))
    ensures Less(SortKey(b), SortKey(a))
  {
    var ta, tb := SortClock(a), SortClock(b);
    var k := FirstDifference(tb, ta);
    var ra, rb := ReplaceChar(ta, ':', '-'), ReplaceChar(tb, ':', '-');
    assert k != 2 && k != 5;
    assert rb[..k] == ra[..k] by {
      forall m | 0 <= m < k ensures rb[m] == ra[m] { assert tb[..k][m] == ta[..k][m]; }
    }
    LessAtFirstDifference(rb, ra, k);
    var p := a.date + "__";
    assert SortKey(a) == p + ra && SortKey(b) == p + rb;
    LessCommonPrefix(p, rb, ra);
  }

  /** A record without a time and one at midnight on the same date have
      the same key, so the sort does not order them. */
  lemma MidnightTies(a: Record, b: Record)
    requires a.date == b.date && a.date != ""
    requires a.time == Some("00:00:00") && (b.time.None? || b.time == Some(""))
    ensures SortKey(a) == SortKey(b)
  {
    assert SortClock(a) == SortClock(b);
  }

  /** In a sorted index, a record with a later date comes first, whatever
      the times. */
  lemma LaterDateFirst(s: seq<Record>, i: nat, j: nat)
    requires NonIncreasing(s, SortKey) && i < |s| && j < |s|
    requires IsDateText(s[i].date) && IsDateText(s[j].date) && Less(s[j].date, s[i].date)
    ensures i < j
  {
    SortKeyOrdersByDate(s[i], s[j]);
    LargerKeyFirst(s, SortKey, i, j);
  }

  /** In a sorted index, of two records of the same date, the one with the
      later sort time comes first. */
  lemma LaterTimeFirst(s: seq<Record>, i: nat, j: nat)
    requires NonIncreasing(s, SortKey) && i < |s| && j < |s|
    requires IsDateText(s[i].date) && s[j].date == s[i].date
    requires IsTimeText(SortClock(s[i])) && IsTimeText(SortClock(s[j])) && Less(SortClock(s[j]), SortClock(s[i]))
    ensures i < j
  {
    SortKeyOrdersByTime(s[i], s[j]);
    LargerKeyFirst(s, SortKey, i, j);
  }

  // ====================================================== books linking

  /** The group a record is linked in: its book, lower-cased. */
  function BookKey(r: Record): string {
    Lower(Or(r.libro, ""))
  }

  /** The nearest position before `j` holding a record of book `key`. */
  function PrevInBook(s: seq<Record>, key: string, j: nat): (r: Option<nat>)
    requires j <= |s|
    ensures r.Some? ==> r.value < j && BookKey(s[r.value]) == key
    ensures r.Some? ==> forall m :: r.value < m < j ==> BookKey(s[m]) != key
    ensures r.None? ==> forall m :: 0 <= m < j ==> BookKey(s[m]) != key
  {
    if j == 0 then None
    else if BookKey(s[j - 1]) == key then Some(j - 1)
    else PrevInBook(s, key, j - 1)
  }

  /** The nearest position at or after `j` holding a record of book `key`. */
  function NextInBook(s: seq<Record>, key: string, j: nat): (r: Option<nat>)
    requires j <= |s|
    decreases |s| - j
    ensures r.Some? ==> j <= r.value < |s| && BookKey(s[r.value]) == key
    ensures r.Some? ==> forall m :: j <= m < r.value ==> BookKey(s[m]) != key
    ensures r.None? ==> forall m :: j <= m < |s| ==> BookKey(s[m]) != key
  {
    if j == |s| then None
    else if BookKey(s[j]) == key then Some(j)
    else NextInBook(s, key, j + 1)
  }

  function PathAt(s: seq<Record>, p: Option<nat>): string
    requires p.Some? ==> p.value < |s|
  {
    if p.Some? then s[p.value].path else ""
  }

  /** The link of record `k`: the path of the nearest record of its book
      before it (`prev`) and after it (`next`), '' at either end. */
  function Linked(s: seq<Record>, k: nat): Record
    requires k < |s|
  {
    var key := BookKey(s[k]);
    s[k].(prev := Some(PathAt(s, PrevInBook(s, key, k))), next := Some(PathAt(s, NextInBook(s, key, k + 1))))
  }

  /** The books index after linking. The order and every other field are
      those of the sorted index. */
  function Link(s: seq<Record>): (r: seq<Record>)
    ensures |r| == |s|
  {
    seq(|s|, k requires 0 <= k < |s| => Linked(s, k))
  }

  /** Linking keeps the order and every field other than `prev` and `next`. */
  lemma LinkChangesOnlyLinks(s: seq<Record>)
    ensures forall k :: 0 <= k < |s| ==> Link(s)[k].(prev := s[k].prev, next := s[k].next) == s[k]
  {
  }

  /** Linking keeps the index sorted. */
  lemma LinkKeepsOrder(s: seq<Record>)
    requires NonIncreasing(s, SortKey)
    ensures NonIncreasing(Link(s), SortKey)
  {
    var r := Link(s);
    forall i, j | 0 <= i < j < |r| ensures !Less(SortKey(r[i]), SortKey(r[j])) {
      assert SortKey(r[i]) == SortKey(s[i]) && SortKey(r[j]) == SortKey(s[j]);
    }
  }

  /** Links are symmetric: when record `i` names record `j` as its next,
      record `j` names record `i` as its previous, and the other way round. */
  lemma LinkSymmetric(s: seq<Record>, i: nat, j: nat)
    requires UniquePaths(s) && i < |s| && j < |s|
    requires forall k :: 0 <= k < |s| ==> s[k].path != ""
    ensures Link(s)[i].next == Some(s[j].path) <==> Link(s)[j].prev == Some(s[i].path)
  {
    var key := BookKey(s[i]);
    assert Link(s)[i] == Linked(s, i) && Link(s)[j] == Linked(s, j);
    if Link(s)[i].next == Some(s[j].path) {
      var n := NextInBook(s, key, i + 1);
      assert n.Some? && s[n.value].path == s[j].path;
      NextThenPrev(s, key, i, j);
    }
    if Link(s)[j].prev == Some(s[i].path) {
      var p := PrevInBook(s, BookKey(s[j]), j);
      assert p.Some? && s[p.value].path == s[i].path;
      PrevThenNext(s, BookKey(s[j]), i, j);
    }
  }

  /** The nearest same-book record after `i` has `i` as its nearest
      same-book record before it. */
  lemma NextThenPrev(s: seq<Record>, key: string, i: nat, j: nat)
    requires i < |s| && BookKey(s[i]) == key && NextInBook(s, key, i + 1) == Some(j)
    ensures BookKey(s[j]) == key && PrevInBook(s, key, j) == Some(i)
  {
  }

  /** The nearest same-book record before `j` has `j` as its nearest
      same-book record after it. */
  lemma PrevThenNext(s: seq<Record>, key: string, i: nat, j: nat)
    requires j < |s| && BookKey(s[j]) == key && PrevInBook(s, key, j) == Some(i)
    ensures BookKey(s[i]) == key && NextInBook(s, key, i + 1) == Some(j)
  {
  }

  /** The first record of a book has an empty `prev`, the last one an empty
      `next`, and only they do. */
  lemma LinkBoundaries(s: seq<Record>, k: nat)
    requires k < |s|
    requires forall m :: 0 <= m < |s| ==> s[m].path != ""
    ensures Link(s)[k].prev == Some("") <==> forall m :: 0 <= m < k ==> BookKey(s[m]) != BookKey(s[k])
    ensures Link(s)[k].next == Some("") <==> forall m :: k < m < |s| ==> BookKey(s[m]) != BookKey(s[k])
  {
    var key := BookKey(s[k]);
    var p := PrevInBook(s, key, k);
    var n := NextInBook(s, key, k + 1);
    if p.Some? { assert s[p.value].path != ""; }
    if n.Some? { assert s[n.value].path != ""; }
  }

  /** The positions below `n` of the records of book `key`, in order: the
      group `byBook.get(key)` once the first `n` records are pushed. */
  function Positions(s: seq<Record>, key: string, n: nat): (ps: seq<nat>)
    requires n <= |s|
    ensures forall i :: 0 <= i < |ps| ==> ps[i] < n && BookKey(s[ps[i]]) == key
    ensures forall i, i' :: 0 <= i < i' < |ps| ==> ps[i] < ps[i']
  {
    if n == 0 then []
    else Positions(s, key, n - 1) + (if BookKey(s[n - 1]) == key then [n - 1] else [])
  }

  /** Every record of the book below `n` is in its group. */
  lemma {:induction false} PositionsComplete(s: seq<Record>, key: string, n: nat, m: nat)
    requires m < n <= |s| && BookKey(s[m]) == key
    ensures m in Positions(s, key, n)
  {
    if m < n - 1 {
      PositionsComplete(s, key, n - 1, m);
    } else {
      assert Positions(s, key, n)[|Positions(s, key, n)| - 1] == m;
    }
  }

  /** The record before a group member is the nearest earlier record of the
      same book. */
  lemma GroupPrev(s: seq<Record>, key: string, i: nat)
    requires i < |Positions(s, key, |s|)|
    ensures PrevInBook(s, key, Positions(s, key, |s|)[i])
            == if i > 0 then Some(Positions(s, key, |s|)[i - 1]) else None
  {
    var ps := Positions(s, key, |s|);
    var p := PrevInBook(s, key, ps[i]);
    if p.Some? {
      PositionsComplete(s, key, |s|, p.value);
      var t :| 0 <= t < |ps| && ps[t] == p.value;
      IncreasingOrder(ps, t, i);
      if i > 0 {
        IncreasingOrder(ps, t, i - 1);
      }
    } else if i > 0 {
      IncreasingOrder(ps, i - 1, i);
    }
  }

  lemma IncreasingOrder(ps: seq<nat>, x: int, y: int)
    requires forall i, i' :: 0 <= i < i' < |ps| ==> ps[i] < ps[i']
    requires 0 <= x < |ps| && 0 <= y < |ps|
    ensures ps[x] < ps[y] <==> x < y
  {
  }

  /** The record after a group member is the nearest later record of the
      same book. */
  lemma GroupNext(s: seq<Record>, key: string, i: nat)
    requires i < |Positions(s, key, |s|)|
    ensures NextInBook(s, key, Positions(s, key, |s|)[i] + 1)
            == if i + 1 < |Positions(s, key, |s|)| then Some(Positions(s, key, |s|)[i + 1]) else None
  {
    var ps := Positions(s, key, |s|);
    if i + 1 < |ps| {
      GroupNextInner(s, key, ps, i);
    } else {
      GroupNextLast(s, key, ps, i);
    }
  }

  lemma GroupNextInner(s: seq<Record>, key: string, ps: seq<nat>, i: nat)
    requires ps == Positions(s, key, |s|) && i + 1 < |ps|
    ensures NextInBook(s, key, ps[i] + 1) == Some(ps[i + 1])
  {
    IncreasingOrder(ps, i, i + 1);
    var n := NextInBook(s, key, ps[i] + 1);
    assert n.Some? && n.value <= ps[i + 1];
    if n.value < ps[i + 1] {
      PositionsComplete(s, key, |s|, n.value);
      var t :| 0 <= t < |ps| && ps[t] == n.value;
      IncreasingOrder(ps, i, t);
      IncreasingOrder(ps, t, i + 1);
    }
  }

  lemma GroupNextLast(s: seq<Record>, key: string, ps: seq<nat>, i: nat)
    requires ps == Positions(s, key, |s|) && i + 1 == |ps|
    ensures NextInBook(s, key, ps[i] + 1) == None
  {
    var n := NextInBook(s, key, ps[i] + 1);
    if n.Some? {
      PositionsComplete(s, key, |s|, n.value);
      var t :| 0 <= t < |ps| && ps[t] == n.value;
      IncreasingOrder(ps, i, t);
    }
  }

  /** The groups after the first `n` records are pushed: `byBook` maps each
      book (lower-cased) to the positions of its records. */
  function Groups(s: seq<Record>, n: nat): map<string, seq<nat>>
    requires n <= |s|
  {
    if n == 0 then map[]
    else
      var g := Groups(s, n - 1);
      var key := BookKey(s[n - 1]);
      g[key := (if key in g then g[key] else []) + [n - 1]]
  }

  /** The books in the order `byBook` first meets them, which is the order
      its groups are walked in. */
  function BookOrder(s: seq<Record>, n: nat): seq<string>
    requires n <= |s|
  {
    if n == 0 then []
    else
      var b := BookOrder(s, n - 1);
      if BookKey(s[n - 1]) in b then b else b + [BookKey(s[n - 1])]
  }

  /** A book has a group exactly when it is in the book order. */
  lemma {:induction false} GroupsBooks(s: seq<Record>, n: nat, key: string)
    requires n <= |s|
    ensures key in Groups(s, n) <==> key in BookOrder(s, n)
  {
    if n > 0 {
      GroupsBooks(s, n - 1, key);
    }
  }

  /** Every record pushed so far has the group of its book. */
  lemma {:induction false} GroupsCover(s: seq<Record>, n: nat, m: nat)
    requires m < n <= |s|
    ensures BookKey(s[m]) in Groups(s, n)
  {
    if m < n - 1 {
      GroupsCover(s, n - 1, m);
    }
  }

  /** No book appears twice in the book order. */
  lemma {:induction false} BookOrderDistinct(s: seq<Record>, n: nat)
    requires n <= |s|
    ensures forall x, y :: 0 <= x < y < |BookOrder(s, n)| ==> BookOrder(s, n)[x] != BookOrder(s, n)[y]
  {
    if n > 0 {
      BookOrderDistinct(s, n - 1);
    }
  }

  /** A book with no record below `n` has an empty group. */
  lemma PositionsAbsent(s: seq<Record>, key: string, n: nat)
    requires n <= |s|
    requires forall m :: 0 <= m < n ==> BookKey(s[m]) != key
    ensures Positions(s, key, n) == []
  {
  }

  /** The group of a book is the positions of its records. */
  lemma {:induction false} GroupsPositions(s: seq<Record>, n: nat, key: string)
    requires n <= |s| && key in Groups(s, n)
    ensures Groups(s, n)[key] == Positions(s, key, n)
  {
    var k := BookKey(s[n - 1]);
    if key in Groups(s, n - 1) {
      GroupsPositions(s, n - 1, key);
    } else {
      forall m | 0 <= m < n - 1 ensures BookKey(s[m]) != key {
        GroupsCover(s, n - 1, m);
      }
      PositionsAbsent(s, key, n - 1);
    }
  }

  /** The first pass of the linking: the group of each book (lower-cased),
      as positions in `a`, and the books in order of first appearance. */
  method GroupByBook(a: array<Record>) returns (byBook: map<string, seq<nat>>, books: seq<string>)
    ensures byBook == Groups(a[..], a.Length) && books == BookOrder(a[..], a.Length)
  {
    byBook := map[];
    books := [];
    ghost var s := a[..];
    for i := 0 to a.Length
      invariant byBook == Groups(s, i) && books == BookOrder(s, i)
    {
      var key := BookKey(a[i]);
      assert key == BookKey(s[i]);
      GroupsStep(s, i, byBook, books);
      if key !in byBook {
        byBook := byBook[key := []];
        books := books + [key];
      }
      byBook := byBook[key := byBook[key] + [i]];
    }
  }

  /** One more record joins its book's group, and its book joins the book
      order when it is new. */
  lemma GroupsStep(s: seq<Record>, i: nat, g: map<string, seq<nat>>, b: seq<string>)
    requires i < |s| && g == Groups(s, i) && b == BookOrder(s, i)
    ensures var key := BookKey(s[i]);
      && Groups(s, i + 1) == g[key := (if key in g then g[key] else []) + [i]]
      && BookOrder(s, i + 1) == if key in g then b else b + [key]
  {
    GroupsBooks(s, i, BookKey(s[i]));
  }

  /** A book without a group position has no record. */
  lemma PositionsNone(s: seq<Record>, key: string)
    requires Positions(s, key, |s|) == []
    ensures forall m :: 0 <= m < |s| ==> BookKey(s[m]) != key
  {
    forall m | 0 <= m < |s| ensures BookKey(s[m]) != key {
      if BookKey(s[m]) == key {
        PositionsComplete(s, key, |s|, m);
      }
    }
  }

  /** The index between the walks of two groups: the records of the books in
      `done` linked, every other record as sorted. */
  function LinkedBooks(s: seq<Record>, done: set<string>): (r: seq<Record>)
    ensures |r| == |s|
  {
    seq(|s|, k requires 0 <= k < |s| => if BookKey(s[k]) in done then Linked(s, k) else s[k])
  }

  /** The index part-way through the second pass: the records of the books
      in `done`, and those of book `key` before position `b`, linked; every
      other record as sorted. */
  function LinkedUpTo(s: seq<Record>, done: set<string>, key: string, b: nat): (r: seq<Record>)
    ensures |r| == |s|
    ensures forall k :: 0 <= k < |s| ==> r[k].path == s[k].path
  {
    seq(|s|, k requires 0 <= k < |s| =>
      if BookKey(s[k]) in done || (BookKey(s[k]) == key && k < b) then Linked(s, k) else s[k])
  }

  /** The position the walk of a group has reached after `i` members. */
  function Reached(group: seq<nat>, i: nat, n: nat): nat {
    if i < |group| then group[i] else n
  }

  /** Before the walk of a group no record of its book is linked. */
  lemma LinkedUpToStart(s: seq<Record>, done: set<string>, key: string)
    ensures LinkedUpTo(s, done, key, Reached(Positions(s, key, |s|), 0, |s|)) == LinkedBooks(s, done)
  {
    var ps := Positions(s, key, |s|);
    if ps == [] {
      PositionsNone(s, key);
    } else {
      GroupPrev(s, key, 0);
    }
  }

  /** One step of the walk links the current member to its group neighbours
      and reaches the next member. */
  lemma LinkedUpToStep(s: seq<Record>, done: set<string>, key: string, i: nat)
    requires i < |Positions(s, key, |s|)|
    ensures var ps := Positions(s, key, |s|);
      var t := LinkedUpTo(s, done, key, Reached(ps, i, |s|));
      LinkedUpTo(s, done, key, Reached(ps, i + 1, |s|))
      == t[ps[i] := t[ps[i]].(prev := Some(if i > 0 then t[ps[i - 1]].path else ""),
                              next := Some(if i + 1 < |ps| then t[ps[i + 1]].path else ""))]
  {
    GroupLinked(s, key, i);
    GroupGap(s, key, i);
  }

  /** After the walk every record of the book is linked. */
  lemma LinkedUpToEnd(s: seq<Record>, done: set<string>, key: string)
    ensures LinkedUpTo(s, done, key, |s|) == LinkedBooks(s, done + {key})
  {
  }

  /** The second pass for one book: each record of the group gets the paths
      of its neighbours in the group. */
  method LinkGroup(a: array<Record>, ghost s: seq<Record>, key: string, group: seq<nat>, ghost done: set<string>)
    modifies a
    requires |s| == a.Length && group == Positions(s, key, |s|)
    requires a[..] == LinkedBooks(s, done)
    ensures a[..] == LinkedBooks(s, done + {key})
  {
    LinkedUpToStart(s, done, key);
    for i := 0 to |group|
      invariant a[..] == LinkedUpTo(s, done, key, Reached(group, i, |s|))
    {
      var curr := group[i];
      var prevPath := if i > 0 then a[group[i - 1]].path else "";
      var nextPath := if i + 1 < |group| then a[group[i + 1]].path else "";
      LinkedUpToStep(s, done, key, i);
      a[curr] := a[curr].(prev := Some(prevPath), next := Some(nextPath));
    }
    LinkedUpToEnd(s, done, key);
  }

  /** Linking a group member sets its links to its group neighbours' paths. */
  lemma GroupLinked(s: seq<Record>, key: string, i: nat)
    requires i < |Positions(s, key, |s|)|
    ensures var ps := Positions(s, key, |s|);
      Linked(s, ps[i]) == s[ps[i]].(
        prev := Some(if i > 0 then s[ps[i - 1]].path else ""),
        next := Some(if i + 1 < |ps| then s[ps[i + 1]].path else ""))
  {
    GroupPrev(s, key, i);
    GroupNext(s, key, i);
  }

  /** No record of the book lies between two neighbours in its group, nor
      after the last one. */
  lemma GroupGap(s: seq<Record>, key: string, i: nat)
    requires i < |Positions(s, key, |s|)|
    ensures var ps := Positions(s, key, |s|);
      forall k :: ps[i] < k < (if i + 1 < |ps| then ps[i + 1] else |s|) ==> BookKey(s[k]) != key
  {
    GroupNext(s, key, i);
  }

  /** With no book linked yet the index is as sorted. */
  lemma LinkedBooksNone(s: seq<Record>)
    ensures LinkedBooks(s, {}) == s
  {
  }

  /** With every book linked the index is the linked index. */
  lemma LinkedBooksAll(s: seq<Record>, done: set<string>)
    requires forall k :: 0 <= k < |s| ==> BookKey(s[k]) in done
    ensures LinkedBooks(s, done) == Link(s)
  {
  }

  /** The linking part of `buildForCategory`: the records are grouped by
      book, then each group is walked and every record's `prev`/`next` set to
      its neighbours' paths. A group holds the positions of its records in
      `a`, which is how it shares the records with the array. */
  method LinkBooks(a: array<Record>)
    modifies a
    ensures a[..] == Link(old(a[..]))
  {
    ghost var s := a[..];
    var byBook, books := GroupByBook(a);
    ghost var done: set<string> := {};
    LinkedBooksNone(s);
    for g := 0 to |books|
      invariant a[..] == LinkedBooks(s, done)
      invariant forall x :: 0 <= x < g ==> books[x] in done
    {
      var key := books[g];
      GroupsBooks(s, |s|, key);
      GroupsPositions(s, |s|, key);
      LinkGroup(a, s, key, byBook[key], done);
      done := done + {key};
    }
    forall m | 0 <= m < |s| ensures BookKey(s[m]) in done {
      GroupsCover(s, |s|, m);
      GroupsBooks(s, |s|, BookKey(s[m]));
      var x :| 0 <= x < |books| && books[x] == BookKey(s[m]);
    }
    LinkedBooksAll(s, done);
  }

  // ====================================================== the whole category

  /** The loop of `buildForCategory` over the directory entries: the record
      of each accepted entry is pushed, in directory order. */
  method CollectRecords(cat: Category, entries: seq<Entry>) returns (items: seq<Record>)
    ensures items == BuiltRecords(cat, entries)
  {
    items := [];
    for i := 0 to |entries|
      invariant items == BuiltRecords(cat, entries[..i])
    {
      BuiltRecordsStep(cat, entries, i);
      var item := BuildRecord(cat, entries[i]);
      if item.Some? {
        items := items + [item.value];
      }
    }
    assert entries[..|entries|] == entries;
  }

  /** `buildForCategory`: no records when the directory is missing; else one
      record per accepted entry, sorted newest first, and linked by book for
      the books category. `sorted` is the index just after sorting, whose
      order among equal keys the engine chooses. */
  method BuildForCategory(cat: Category, listing: Option<seq<Entry>>)
    returns (out: seq<Record>, ghost sorted: seq<Record>)
    ensures listing.None? ==> out == [] && sorted == []
    ensures listing.Some? ==> multiset(sorted) == multiset(BuiltRecords(cat, listing.value))
    ensures NonIncreasing(sorted, SortKey)
    ensures out == if cat == Libros then Link(sorted) else sorted
  {
    if listing.None? {
      return [], [];
    }
    var items := CollectRecords(cat, listing.value);
    var a := new Record[|items|](k requires 0 <= k < |items| => items[k]);
    assert a[..] == items;
    SortDescending(a, SortKey);
    sorted := a[..];
    if cat == Libros {
      LinkBooks(a);
    }
    out := a[..];
  }

  /** In the books index built from a directory, links are symmetric: if
      record `i`'s `next` is the path of record `j`, then record `j`'s `prev`
      is the path of record `i`, and the other way round. */
  lemma BooksIndexLinksSymmetric(es: seq<Entry>, sorted: seq<Record>, i: nat, j: nat)
    requires forall x, y :: 0 <= x < y < |es| ==> es[x].name != es[y].name
    requires multiset(sorted) == multiset(BuiltRecords(Libros, es))
    requires i < |sorted| && j < |sorted|
    ensures Link(sorted)[i].next == Some(Link(sorted)[j].path) <==> Link(sorted)[j].prev == Some(Link(sorted)[i].path)
  {
    BuiltPathsUnique(Libros, es);
    PermutationKeepsUniquePaths(BuiltRecords(Libros, es), sorted);
    forall k | 0 <= k < |sorted| ensures sorted[k].path != "" {
      assert sorted[k] in multiset(BuiltRecords(Libros, es));
      var m :| 0 <= m < |BuiltRecords(Libros, es)| && BuiltRecords(Libros, es)[m] == sorted[k];
      var e :| e in es && sorted[k].path == PathOf(Libros, e.name);
    }
    LinkSymmetric(sorted, i, j);
  }
}

