// The texts of cron expressions with numbers below 100: which of them include/dmcroncpp.h accepts, and what each then
// allows, by arithmetic on the numbers.

module CronTexts {
  import opened Gregorian
  import opened CronSearch
  import opened NextInstant
  import opened CronFields
  import opened CronNames

  // ----- entries

  /** A star, a number, or two numbers with a minus sign between them. */
  datatype Range = Star | One(a: nat) | Span(a: nat, b: nat)

  /** One entry of a comma list: a range, or a range and a step with a slash between them. */
  datatype Entry = Bare(range: Range) | By(range: Range, step: nat)

  predicate Small(r: Range) {
    (r.One? ==> r.a < 100) && (r.Span? ==> r.a < 100 && r.b < 100)
  }

  predicate Short(e: Entry) {
    Small(e.range) && (e.By? ==> e.step < 100)
  }

  function ShowRange(r: Range): string
    requires Small(r)
  {
    match r
    case Star => "*"
    case One(a) => Decimal(a)
    case Span(a, b) => Decimal(a) + (['-'] + Decimal(b))
  }

  function Show(e: Entry): string
    requires Short(e)
  {
    match e
    case Bare(r) => ShowRange(r)
    case By(r, s) => ShowRange(r) + (['/'] + Decimal(s))
  }

  /** The numbers are within the limits, a range goes upwards, and a step goes on. */
  predicate Proper(e: Entry, minval: nat, maxval: nat) {
    && (e.range.One? ==> minval <= e.range.a <= maxval)
    && (e.range.Span? ==> minval <= e.range.a <= e.range.b <= maxval)
    && (e.By? ==> e.step > 0)
  }

  /** The entry allows the value v; a number with a step stands for all that follows. */
  predicate Covers(e: Entry, minval: nat, maxval: nat, v: int)
    requires Proper(e, minval, maxval)
  {
    match e
    case Bare(Star) => minval <= v <= maxval
    case Bare(One(a)) => v == a
    case Bare(Span(a, b)) => a <= v <= b
    case By(Star, s) => minval <= v <= maxval && (v - minval) % s == 0
    case By(One(a), s) => a <= v <= maxval && (v - a) % s == 0
    case By(Span(a, b), s) => a <= v <= b && (v - a) % s == 0
  }

  lemma DecimalReads(n: nat)
    requires n < 100
    ensures Spelled(Decimal(n)) == Ok(n)
    ensures 1 <= |Decimal(n)| <= 2 && forall c :: c in Decimal(n) ==> IsDigit(c)
  {
    var d := Decimal(n);
    if n < 10 {
      assert d[1..] == "";
      assert Number(d, 0) == Number("", n) == n;
    } else {
      assert d[1..] == [Digit(n % 10)] && [Digit(n % 10)][1..] == "";
      assert Number([Digit(n % 10)], n / 10) == Number("", n) == n;
      assert Number(d, 0) == Number([Digit(n % 10)], n / 10);
    }
  }

  lemma TwoParts(x: string, y: string, ch: char)
    requires x != "" && y != "" && ch !in x && ch !in y
    ensures Tokens(x + ([ch] + y), ch) == [x, y]
  {
    hide Tokens, Join;
    JoinCons(x, [y], ch);
    JoinCons(y, [], ch);
    assert [x] + [y] == [x, y];
    TokensOfJoin([x, y], ch);
  }

  lemma RangeReads(r: Range, minval: byte, maxval: byte)
    requires Small(r)
    ensures ShowRange(r) != "" && forall c :: c in ShowRange(r) ==> IsDigit(c) || c == '*' || c == '-'
    ensures '-' in ShowRange(r) <==> r.Span?
    ensures Bounds(ShowRange(r), minval, maxval) ==
            Ok(match r
               case Star => Item(minval, maxval, 1)
               case One(a) => Item(a, a, 1)
               case Span(a, b) => Item(a, b, 1))
  {
    hide Decimal, Tokens, Spelled;
    if r.One? {
      DecimalReads(r.a);
      assert Decimal(r.a)[0] in Decimal(r.a);
    } else if r.Span? {
      DecimalReads(r.a);
      DecimalReads(r.b);
      TwoParts(Decimal(r.a), Decimal(r.b), '-');
      assert ShowRange(r)[|Decimal(r.a)|] == '-';
    }
  }

  lemma EntryNumbers(e: Entry, minval: byte, maxval: byte)
    requires Short(e)
    ensures Show(e) != "" && forall c :: c in Show(e) ==> IsDigit(c) || c in "*-/"
    ensures '/' in Show(e) <==> e.By?
    ensures e.By? ==> Tokens(Show(e), '/') == [ShowRange(e.range), Decimal(e.step)]
    ensures var b := Bounds(ShowRange(e.range), minval, maxval);
            && b.Ok? && Numbers(Show(e), minval, maxval) == Ok(if e.By? then b.value.(step := e.step) else b.value)
  {
    hide Decimal, Tokens, Spelled, Bounds, ShowRange;
    RangeReads(e.range, minval, maxval);
    if e.By? {
      DecimalReads(e.step);
      TwoParts(ShowRange(e.range), Decimal(e.step), '/');
      assert Show(e)[|ShowRange(e.range)|] == '/';
    }
  }

  /** The values of an entry, from which to which and how far apart. */
  function ItemOf(e: Entry, minval: byte, maxval: byte): Item {
    Item(
      if e.range.Star? then minval else e.range.a,
      if e.range.Span? then e.range.b else if e.range.One? && e.Bare? then e.range.a else maxval,
      if e.By? then e.step else 1)
  }

  lemma EntryItem(e: Entry, minval: byte, maxval: byte)
    requires Short(e) && minval <= maxval < 100
    ensures ReadItem(Show(e), minval, maxval) ==
            if Proper(e, minval, maxval) then Ok(ItemOf(e, minval, maxval)) else Err
  {
    hide Decimal, Tokens, Bounds, Show, ShowRange, Numbers;
    RangeReads(e.range, minval, maxval);
    EntryNumbers(e, minval, maxval);
    var b := Bounds(ShowRange(e.range), minval, maxval).value;
    LowBytes(if e.By? then b.(step := e.step) else b);
  }

  lemma LowBytes(e: Item)
    requires 0 <= e.first < 256 && 0 <= e.last < 256 && 0 <= e.step < 256
    ensures LowByte(e) == e
  {
  }

  lemma ItemCovers(e: Entry, minval: byte, maxval: byte, j: int)
    requires Short(e) && minval <= maxval < 100 && maxval < minval + 60 && Proper(e, minval, maxval)
    ensures var i := ItemOf(e, minval, maxval);
            && i.first >= minval && i.last >= minval && 0 < i.step < 256
            && (Stepped(i.first - minval, i.last - minval, i.step, j) <==> Covers(e, minval, maxval, j + minval))
  {
    var i := ItemOf(e, minval, maxval);
    assert j + minval - i.first == j - (i.first - minval);
    if e.Bare? {
      EveryStep(i.first - minval, j);
    }
  }

  lemma EveryStep(base: int, x: int)
    ensures OnStep(base, x, 1)
  {
  }

  /** An entry is accepted exactly if it is proper, and then sets the bits of the values it allows. */
  lemma EntryMeans(e: Entry, minval: byte, maxval: byte)
    requires Short(e) && minval <= maxval < 100 && maxval < minval + 60
    ensures ReadItem(Show(e), minval, maxval).Ok? <==> Proper(e, minval, maxval)
    ensures Proper(e, minval, maxval) ==>
              forall j :: Hits(Show(e), minval, maxval, j) <==> Covers(e, minval, maxval, j + minval)
    ensures Show(e) != "" && forall c :: c in Show(e) ==> IsDigit(c) || c in "*-/"
  {
    hide Show, ReadItem, Stepped, Covers, Proper, ItemOf, Short;
    EntryItem(e, minval, maxval);
    EntryNumbers(e, minval, maxval);
    if Proper(e, minval, maxval) {
      forall j
        ensures Hits(Show(e), minval, maxval, j) <==> Covers(e, minval, maxval, j + minval)
      {
        ItemCovers(e, minval, maxval, j);
      }
    }
  }

  // ----- comma lists

  predicate AllShort(es: seq<Entry>) {
    forall k :: 0 <= k < |es| ==> Short(es[k])
  }

  function Shown(es: seq<Entry>): (r: seq<string>)
    requires AllShort(es)
    ensures |r| == |es| && forall k :: 0 <= k < |es| ==> r[k] == Show(es[k])
  {
    seq(|es|, k requires 0 <= k < |es| => Show(es[k]))
  }

  function ShowList(es: seq<Entry>): string
    requires AllShort(es)
  {
    Join(Shown(es), ',')
  }

  predicate AllProper(es: seq<Entry>, minval: nat, maxval: nat) {
    forall k :: 0 <= k < |es| ==> Proper(es[k], minval, maxval)
  }

  /** The list allows what one of its entries allows. */
  predicate ListCovers(es: seq<Entry>, minval: nat, maxval: nat, v: int)
    requires AllProper(es, minval, maxval)
  {
    exists k :: 0 <= k < |es| && Covers(es[k], minval, maxval, v)
  }

  function ListBits(es: seq<Entry>, minval: nat, maxval: nat): Bits
    requires minval <= maxval && AllProper(es, minval, maxval)
  {
    seq(maxval - minval + 1, j => ListCovers(es, minval, maxval, j + minval))
  }

  lemma {:induction false} CharsOfJoin(tokens: seq<string>, ch: char)
    ensures forall c :: c in Join(tokens, ch) ==> c == ch || exists k :: 0 <= k < |tokens| && c in tokens[k]
    ensures tokens != [] && tokens[|tokens| - 1] != "" ==>
              var t, text := tokens[|tokens| - 1], Join(tokens, ch);
              text != "" && text[|text| - 1] == t[|t| - 1]
  {
    hide Join;
    if tokens == [] {
      JoinCons("", [], ch);
    } else {
      var first, rest := tokens[0], tokens[1..];
      assert tokens == [first] + rest;
      JoinCons(first, rest, ch);
      CharsOfJoin(rest, ch);
      if rest == [] {
        assert tokens == [first];
        assert Join(tokens, ch) == first;
      } else {
        assert Join(tokens, ch) == first + ([ch] + Join(rest, ch));
      }
    }
  }

  lemma ListTokens(es: seq<Entry>)
    requires AllShort(es) && es != []
    ensures Tokens(ShowList(es), ',') == Shown(es) && ShowList(es) != "" && ShowList(es)[|ShowList(es)| - 1] != ','
    ensures forall c :: c in ShowList(es) ==> IsDigit(c) || c in "*-/,"
  {
    hide Tokens, Join, Show;
    forall k | 0 <= k < |es|
      ensures Shown(es)[k] != "" && forall c :: c in Shown(es)[k] ==> IsDigit(c) || c in "*-/"
    {
      EntryNumbers(es[k], 0, 0);
    }
    TokensOfJoin(Shown(es), ',');
    CharsOfJoin(Shown(es), ',');
    var last := Shown(es)[|es| - 1];
    assert last[|last| - 1] in last;
  }

  /** A list is accepted exactly if all its entries are proper, and then allows what they allow. */
  lemma ListMeans(es: seq<Entry>, minval: byte, maxval: byte)
    requires AllShort(es) && es != [] && minval <= maxval < 100 && maxval < minval + 60
    ensures Readable(ShowList(es), minval, maxval) <==> AllProper(es, minval, maxval)
    ensures AllProper(es, minval, maxval) ==> Allows(ShowList(es), minval, maxval, ListBits(es, minval, maxval))
  {
    hide Tokens, Join, Show, ReadItem, Hits, ShowList, Proper, Covers;
    ListTokens(es);
    forall k | 0 <= k < |es|
      ensures ReadItem(Shown(es)[k], minval, maxval).Ok? <==> Proper(es[k], minval, maxval)
      ensures Proper(es[k], minval, maxval) ==>
                forall j :: Hits(Shown(es)[k], minval, maxval, j) <==> Covers(es[k], minval, maxval, j + minval)
    {
      EntryMeans(es[k], minval, maxval);
    }
    if AllProper(es, minval, maxval) {
      forall j | 0 <= j <= maxval - minval
        ensures SomeHits(Shown(es), |es|, minval, maxval, j) <==> ListCovers(es, minval, maxval, j + minval)
      {
      }
    }
  }

  // ----- what is not accepted

  lemma ThreeParts(x: string, y: string, z: string, ch: char)
    requires x != "" && y != "" && z != "" && ch !in x && ch !in y && ch !in z
    ensures Tokens(x + ([ch] + (y + ([ch] + z))), ch) == [x, y, z]
  {
    hide Tokens, Join;
    JoinCons(x, [y, z], ch);
    JoinCons(y, [z], ch);
    JoinCons(z, [], ch);
    assert [x] + [y, z] == [x, y, z] && [y] + [z] == [y, z];
    TokensOfJoin([x, y, z], ch);
  }

  /** Ranges and steps with too many parts, empty entries and a last comma. */
  lemma TooMuch(a: nat, b: nat, c: nat, value: string, minval: byte, maxval: byte)
    requires a < 100 && b < 100 && c < 100
    ensures ReadItem(Decimal(a) + (['-'] + (Decimal(b) + (['-'] + Decimal(c)))), minval, maxval).Err?
    ensures ReadItem(Decimal(a) + (['/'] + (Decimal(b) + (['/'] + Decimal(c)))), minval, maxval).Err?
    ensures ReadItem("", minval, maxval).Err?
    ensures !Readable("", minval, maxval) && !Readable(value + [','], minval, maxval)
  {
    hide Decimal, Tokens;
    DecimalReads(a);
    DecimalReads(b);
    DecimalReads(c);
    ThreeParts(Decimal(a), Decimal(b), Decimal(c), '-');
    ThreeParts(Decimal(a), Decimal(b), Decimal(c), '/');
    var range := Decimal(a) + (['-'] + (Decimal(b) + (['-'] + Decimal(c))));
    var steps := Decimal(a) + (['/'] + (Decimal(b) + (['/'] + Decimal(c))));
    assert range[|Decimal(a)|] == '-' && steps[|Decimal(a)|] == '/';
    NoTokens(',');
  }

  /** Signs, blanks and trailing text, as stoul takes them. */
  lemma OddNumbers()
    ensures Spelled("+5") == Ok(5) && Spelled("-5") == Ok(-5) && Spelled("\t5") == Ok(5) && Spelled("5x") == Ok(5)
    ensures Spelled("x").Err? && Spelled("").Err? && Spelled("+").Err? && Spelled("--5").Err?
    ensures ToCronInt("-5") == Ok(251)
  {
    assert Number("5", 0) == Number("", 5) == 5 by { assert "5"[1..] == ""; }
    assert Number("5x", 0) == Number("x", 5) == 5 by { assert "5x"[1..] == "x"; }
    assert "+5"[1..] == "5" && "-5"[1..] == "5" && "\t5"[1..] == "5" && "+"[1..] == "" && "--5"[1..] == "-5";
  }

  lemma {:induction false} NumberSplits(x: string, y: string, n: nat)
    requires forall c :: c in x ==> IsDigit(c)
    ensures Number(x + y, n) == Number(y, Number(x, n))
  {
    if x == "" {
      assert x + y == y;
    } else {
      assert (x + y)[0] == x[0] && x[0] in x && (x + y)[1..] == x[1..] + y;
      NumberSplits(x[1..], y, 10 * n + (x[0] as int - '0' as int));
    }
  }

  lemma OneDigit(a: nat, n: nat)
    requires a < 10
    ensures Number([Digit(a)], n) == 10 * n + a && forall x :: x in [Digit(a)] ==> IsDigit(x)
  {
    assert [Digit(a)][1..] == "" && Number("", 10 * n + a) == 10 * n + a;
  }

  /** Digits count by their places; */
  lemma FiveDigits(a: nat, b: nat, c: nat, d: nat, e: nat, n: nat)
    requires a < 10 && b < 10 && c < 10 && d < 10 && e < 10
    ensures var text := [Digit(a), Digit(b), Digit(c), Digit(d), Digit(e)];
            && Number(text, n) == 100000 * n + 10000 * a + 1000 * b + 100 * c + 10 * d + e
            && forall x :: x in text ==> IsDigit(x)
  {
    hide Number, Digit;
    OneDigit(a, n);
    OneDigit(b, 10 * n + a);
    OneDigit(c, 100 * n + 10 * a + b);
    OneDigit(d, 1000 * n + 100 * a + 10 * b + c);
    OneDigit(e, 10000 * n + 1000 * a + 100 * b + 10 * c + d);
    var x, y := [Digit(a)], [Digit(b)];
    NumberSplits(x, y, n);
    NumberSplits(x + y, [Digit(c)], n);
    NumberSplits(x + y + [Digit(c)], [Digit(d)], n);
    NumberSplits(x + y + [Digit(c)] + [Digit(d)], [Digit(e)], n);
    assert x + y + [Digit(c)] + [Digit(d)] + [Digit(e)] == [Digit(a), Digit(b), Digit(c), Digit(d), Digit(e)];
  }

  /** a number may have 64 bits and not more. */
  lemma LargeNumbers()
    ensures Spelled("18446744073709551615") == Ok(0xffff_ffff_ffff_ffff) && Spelled("18446744073709551616").Err?
  {
    hide Number;
    var x := "18446" + ("74407" + "37095");
    forall k | 5 <= k <= 6
      ensures Number(x + ['5', '1', '6', '1', Digit(k)] , 0) == 18446744073709551610 + k
    {
      FiveDigits(1, 8, 4, 4, 6, 0);
      FiveDigits(7, 4, 4, 0, 7, 18446);
      FiveDigits(3, 7, 0, 9, 5, 1844674407);
      FiveDigits(5, 1, 6, 1, k, 184467440737095);
      NumberSplits("18446", "74407" + "37095", 0);
      NumberSplits("74407", "37095", 18446);
      NumberSplits(x, ['5', '1', '6', '1', Digit(k)], 0);
    }
    assert "18446744073709551615" == x + ['5', '1', '6', '1', Digit(5)];
    assert "18446744073709551616" == x + ['5', '1', '6', '1', Digit(6)];
  }

  // ----- fields between spaces

  /** The fields of an expression. */
  function FieldsOf(expr: string): seq<string> {
    NonEmpty(Tokens(expr, ' '))
  }

  lemma {:induction false} NonEmptyOn(a: seq<string>, b: seq<string>)
    ensures NonEmpty(a + b) == NonEmpty(a) + NonEmpty(b)
  {
    if a == [] {
      assert a + b == b;
    } else {
      NonEmptyOn(a[1..], b);
      assert (a + b)[1..] == a[1..] + b && (a + b)[0] == a[0];
    }
  }

  lemma NonEmptyOne(token: string)
    ensures NonEmpty([]) == [] && NonEmpty([token]) == if token == "" then [] else [token]
  {
    assert [token][1..] == [];
  }

  /** The fields before a space and those after it; so more spaces than one, or spaces at an end, do not matter, */
  lemma {:induction false} SpaceDivides(front: string, rest: string)
    ensures FieldsOf(front + ([' '] + rest)) == FieldsOf(front) + FieldsOf(rest)
    decreases |front|
  {
    hide Tokens, IndexOf, NonEmpty;
    var text, i := front + ([' '] + rest), IndexOf(front, ' ');
    FirstToken(text, ' ');
    assert text[..i] == front[..i] && text[i] == ' ';
    EndsAt(text, ' ', i);
    var token := front[..i];
    if i == |front| {
      assert text[i + 1..] == rest && token == front;
      NonEmptyOn([front], Tokens(rest, ' '));
      NonEmptyOne(front);
      if front == "" {
        NoTokens(' ');
      } else {
        FirstToken(front, ' ');
      }
    } else {
      var tail := front[i + 1..];
      assert text[i + 1..] == tail + ([' '] + rest);
      FirstToken(front, ' ');
      SpaceDivides(tail, rest);
      NonEmptyOn([token], Tokens(tail, ' '));
      NonEmptyOn([token], Tokens(tail + ([' '] + rest), ' '));
      var first := NonEmpty([token]);
      assert first + (FieldsOf(tail) + FieldsOf(rest)) == first + FieldsOf(tail) + FieldsOf(rest);
    }
  }

  /** and what has no space in it is one field. */
  lemma OneField(word: string)
    requires ' ' !in word
    ensures FieldsOf(word) == if word == "" then [] else [word]
  {
    hide Tokens, IndexOf, NonEmpty;
    NonEmptyOne(word);
    if word == "" {
      NoTokens(' ');
    } else {
      FirstToken(word, ' ');
    }
  }

  lemma SixFields(a: string, b: string, c: string, d: string, e: string, f: string)
    requires ' ' !in a && ' ' !in b && ' ' !in c && ' ' !in d && ' ' !in e && ' ' !in f
    requires a != "" && b != "" && c != "" && d != "" && e != "" && f != ""
    ensures FieldsOf(a + ([' '] + (b + ([' '] + (c + ([' '] + (d + ([' '] + (e + ([' '] + f)))))))))) ==
            [a, b, c, d, e, f]
  {
    hide FieldsOf;
    OneField(a);
    OneField(b);
    OneField(c);
    OneField(d);
    OneField(e);
    OneField(f);
    SpaceDivides(e, f);
    SpaceDivides(d, e + ([' '] + f));
    SpaceDivides(c, d + ([' '] + (e + ([' '] + f))));
    SpaceDivides(b, c + ([' '] + (d + ([' '] + (e + ([' '] + f))))));
    SpaceDivides(a, b + ([' '] + (c + ([' '] + (d + ([' '] + (e + ([' '] + f))))))));
  }

  // ----- names

  lemma NameHasLetter(text: string, pos: nat, names: seq<string>, i: nat)
    requires Distinctive(names) && i < |names| && At(text, pos, names[i])
    ensures exists c :: c in text && IsLetter(c)
  {
    assert text[pos] == text[pos..pos + 3][0] == names[i][0] && text[pos] in text;
  }

  lemma NotEmpty(names: seq<string>, i: nat)
    requires Distinctive(names) && i < |names|
    ensures Named(names) && names[i] != ""
  {
  }

  lemma {:induction false} NoLetters(text: string, names: seq<string>, i: nat)
    requires Distinctive(names) && i <= |names| && forall c :: c in text ==> !IsLetter(c)
    ensures Ordinals(text, names, i) == text
    decreases |names| - i
  {
    hide Distinctive;
    if i < |names| {
      NotEmpty(names, i);
      var pos := Find(text, names[i]);
      if pos < |text| {
        NameHasLetter(text, pos, names, i);
        assert false;
      }
      NoLetters(text, names, i + 1);
    }
  }

  lemma NumberChars(c: char)
    requires IsDigit(c) || c in "*-/,"
    ensures !IsLetter(c) && !('a' <= c <= 'z') && c != ' ' && c != '?'
  {
  }

  lemma NoSmallLetters(text: string)
    requires forall c :: c in text ==> !('a' <= c <= 'z')
    ensures ToUpper(text) == text
  {
    assert forall i :: 0 <= i < |text| ==> text[i] in text;
  }

  /** A list of numbers is read as it stands, for days and months as well. */
  lemma NumbersStay(es: seq<Entry>)
    requires AllShort(es) && es != []
    ensures var text := ShowList(es);
            && MonthsText(text) == text && DaysOfWeekText(text) == text && AnyDay(text) == text
            && ' ' !in text && text != ""
  {
    hide Ordinals, ShowList, Distinctive, ToUpper, Tokens, IsDigit;
    var text := ShowList(es);
    ListTokens(es);
    TablesAreDistinctive();
    forall c | c in text
      ensures !IsLetter(c) && !('a' <= c <= 'z') && c != ' ' && c != '?'
    {
      NumberChars(c);
    }
    NoSmallLetters(text);
    NoLetters(text, MONTHS, 0);
    NoLetters(text, DAYS, 0);
    assert '?' in "?";
  }

  const LOWER: string := "abcdefghijklmnopqrstuvwxyz"
  const UPPER: string := "ABCDEFGHIJKLMNOPQRSTUVWXYZ"

  lemma Alphabet()
    ensures forall k :: 0 <= k < 26 ==> LOWER[k] as int == 'a' as int + k && UPPER[k] as int == 'A' as int + k
  {
  }

  /** A small letter is read as its capital, and everything else as it is. */
  lemma SmallLetters(text: string, i: nat)
    requires i < |text|
    ensures |ToUpper(text)| == |text|
    ensures forall k :: 0 <= k < 26 && text[i] == LOWER[k] ==> ToUpper(text)[i] == UPPER[k]
    ensures text[i] !in LOWER ==> ToUpper(text)[i] == text[i]
  {
    Alphabet();
    if 'a' <= text[i] <= 'z' {
      assert text[i] == LOWER[text[i] as int - 'a' as int];
    }
  }

  /** Each day and each month by its name, and two days with something between them. */
  lemma DayNames()
    ensures DaysOfWeekText("SUN") == "0" && DaysOfWeekText("MON") == "1" && DaysOfWeekText("TUE") == "2"
    ensures DaysOfWeekText("WED") == "3" && DaysOfWeekText("THU") == "4" && DaysOfWeekText("FRI") == "5"
    ensures DaysOfWeekText("SAT") == "6" && DaysOfWeekText("mon") == "1" && DaysOfWeekText("?") == "*"
    ensures DaysOfWeekText("MON-FRI") == "1-5" && AnyDay("?") == "*"
  {
    hide Ordinals, Distinctive;
    forall k | 0 <= k < 7
      ensures DaysOfWeekText(DAYS[k]) == Decimal(k)
    {
      OneDay(k);
    }
    assert DaysOfWeekText(DAYS[0]) == "0" && DaysOfWeekText(DAYS[1]) == "1" && DaysOfWeekText(DAYS[2]) == "2";
    assert DaysOfWeekText(DAYS[3]) == "3" && DaysOfWeekText(DAYS[4]) == "4" && DaysOfWeekText(DAYS[5]) == "5";
    assert DaysOfWeekText(DAYS[6]) == "6";
    assert ToUpper("mon") == "MON" == ToUpper("MON");
    assert ToUpper("MON-FRI") == "MON-FRI";
    MondayToFriday();
    NoNames("?", DAYS);
  }

  lemma OneDay(k: nat)
    requires k < 7
    ensures DaysOfWeekText(DAYS[k]) == Decimal(k)
  {
    hide Ordinals, Distinctive;
    TablesAreDistinctive();
    DifferentNames(DAYS, k);
    assert ToUpper(DAYS[k]) == DAYS[k];
    NameIsNumber(DAYS, 0, k);
  }

  lemma DifferentNames(names: seq<string>, k: nat)
    requires Distinctive(names) && k < |names|
    ensures Named(names) && forall j :: 0 <= j < k ==> names[j] != names[k]
    ensures forall i :: 0 <= i < 3 ==> IsLetter(names[k][i])
  {
  }

  lemma OneMonth(k: nat)
    requires k < 13
    ensures MonthsText(MONTHS[k]) == Decimal(k)
  {
    hide Ordinals, Distinctive;
    TablesAreDistinctive();
    DifferentNames(MONTHS, k);
    assert ToUpper(MONTHS[k]) == MONTHS[k];
    NameIsNumber(MONTHS, 0, k);
  }

  lemma MonthNames()
    ensures MonthsText("JAN") == "1" && MonthsText("FEB") == "2" && MonthsText("MAR") == "3" && MonthsText("APR") == "4"
    ensures MonthsText("MAY") == "5" && MonthsText("JUN") == "6" && MonthsText("JUL") == "7" && MonthsText("AUG") == "8"
    ensures MonthsText("SEP") == "9" && MonthsText("OCT") == "10" && MonthsText("NOV") == "11"
    ensures MonthsText("DEC") == "12" && MonthsText("NIL") == "0"
  {
    hide MonthsText;
    forall k | 0 <= k < 13
      ensures MonthsText(MONTHS[k]) == Decimal(k)
    {
      OneMonth(k);
    }
    assert MonthsText(MONTHS[1]) == "1" && MonthsText(MONTHS[2]) == "2" && MonthsText(MONTHS[3]) == "3";
    assert MonthsText(MONTHS[4]) == "4" && MonthsText(MONTHS[5]) == "5" && MonthsText(MONTHS[6]) == "6";
    assert MonthsText(MONTHS[7]) == "7" && MonthsText(MONTHS[8]) == "8" && MonthsText(MONTHS[9]) == "9";
    assert MonthsText(MONTHS[10]) == "10" && MonthsText(MONTHS[11]) == "11" && MonthsText(MONTHS[12]) == "12";
    assert MonthsText(MONTHS[0]) == "0";
  }

  /** Six readable lists are what they say; a field may stand for a list by a question mark or a name. */
  lemma ExpressionMeans(expr: string, sec: seq<Entry>, min: seq<Entry>, hour: seq<Entry>, mday: seq<Entry>,
                        month: seq<Entry>, wday: seq<Entry>)
    requires AllShort(sec) && AllShort(min) && AllShort(hour) && AllShort(mday) && AllShort(month) && AllShort(wday)
    requires sec != [] && min != [] && hour != [] && mday != [] && month != [] && wday != []
    requires var f := FieldsOf(expr);
             && |f| == 6 && f[0] == ShowList(sec) && f[1] == ShowList(min) && f[2] == ShowList(hour)
             && AnyDay(f[3]) == ShowList(mday) && MonthsText(f[4]) == ShowList(month)
             && DaysOfWeekText(f[5]) == ShowList(wday)
    ensures Reads(expr) <==>
              && AllProper(sec, 0, 59) && AllProper(min, 0, 59) && AllProper(hour, 0, 23)
              && AllProper(mday, 1, 31) && AllProper(month, 1, 12) && AllProper(wday, 0, 6)
    ensures Reads(expr) ==>
              Says(expr, CronExpr(ListBits(sec, 0, 59), ListBits(min, 0, 59), ListBits(hour, 0, 23),
                                  ListBits(wday, 0, 6), ListBits(mday, 1, 31), ListBits(month, 1, 12)))
  {
    hide Readable, Allows, Tokens, ShowList, ListBits, Proper, NonEmpty, AnyDay, MonthsText, DaysOfWeekText;
    ListMeans(sec, 0, 59);
    ListMeans(min, 0, 59);
    ListMeans(hour, 0, 23);
    ListMeans(mday, 1, 31);
    ListMeans(month, 1, 12);
    ListMeans(wday, 0, 6);
  }

  /** A text says one thing only. */
  lemma SaysOne(expr: string, a: CronExpr, b: CronExpr)
    requires Says(expr, a) && Says(expr, b) && ValidExpr(a) && ValidExpr(b)
    ensures a == b
  {
    hide Tokens, NonEmpty, Readable, SomeHits, HasBit, Ordinals, ToUpper;
  }

  lemma SaysReads(expr: string, cex: CronExpr)
    requires Says(expr, cex)
    ensures Reads(expr)
  {
    hide Tokens, NonEmpty, Readable, SomeHits, HasBit;
  }
}
