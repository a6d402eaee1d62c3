// How include/dmcroncpp.h reads the fields of a cron expression into bit sets.

module CronFields {
  import opened CronNames
  import opened CronSearch
  import opened Gregorian
  import opened Leastness
  import opened NextInstant
  import opened Reliability

  type byte = x: int | 0 <= x < 256

  datatype Result<T> = Ok(value: T) | Err

  // ----- text

  /** Where ch first occurs, or the length of the text. */
  function IndexOf(text: string, ch: char): (i: nat)
    ensures i <= |text| && ch !in text[..i] && (i < |text| ==> text[i] == ch)
  {
    if text == "" || text[0] == ch then 0 else 1 + IndexOf(text[1..], ch)
  }

  /** The tokens that getline finds: an empty one after a last delimiter does not count. */
  function Tokens(text: string, delimiter: char): seq<string> {
    if text == "" then []
    else
      var i := IndexOf(text, delimiter);
      if i == |text| then [text] else [text[..i]] + Tokens(text[i + 1..], delimiter)
  }

  function Join(tokens: seq<string>, delimiter: char): string {
    if tokens == [] then ""
    else if |tokens| == 1 then tokens[0]
    else tokens[0] + [delimiter] + Join(tokens[1..], delimiter)
  }

  lemma FirstToken(text: string, delimiter: char)
    requires text != ""
    ensures var i := IndexOf(text, delimiter);
            if i == |text| then Tokens(text, delimiter) == [text]
            else Tokens(text, delimiter) == [text[..i]] + Tokens(text[i + 1..], delimiter)
  {
    hide IndexOf;
  }

  lemma NoTokens(delimiter: char)
    ensures Tokens("", delimiter) == []
  {
  }

  lemma CutAt(text: string, i: nat)
    requires i < |text|
    ensures text == text[..i] + ([text[i]] + text[i + 1..])
  {
  }

  lemma JoinCons(first: string, tail: seq<string>, delimiter: char)
    ensures Join([], delimiter) == "" && Join([first], delimiter) == first
    ensures tail != [] ==> Join([first] + tail, delimiter) == first + ([delimiter] + Join(tail, delimiter))
  {
    assert ([first] + tail)[1..] == tail;
  }

  /** Nothing but a last delimiter is lost, */
  lemma {:induction false} JoinTokens(text: string, delimiter: char)
    ensures text == Join(Tokens(text, delimiter), delimiter)
            || text == Join(Tokens(text, delimiter), delimiter) + [delimiter]
  {
    if text == "" {
      assert Tokens(text, delimiter) == [];
    } else {
      hide IndexOf, Tokens, Join;
      FirstToken(text, delimiter);
      var i := IndexOf(text, delimiter);
      if i == |text| {
        JoinCons(text, [], delimiter);
      } else {
        var first, rest := text[..i], text[i + 1..];
        JoinTokens(rest, delimiter);
        CutAt(text, i);
        if rest != "" {
          FirstToken(rest, delimiter);
        }
        JoinRest(first, rest, Tokens(rest, delimiter), delimiter);
      }
    }
  }

  lemma JoinRest(first: string, rest: string, tail: seq<string>, delimiter: char)
    requires rest == Join(tail, delimiter) || rest == Join(tail, delimiter) + [delimiter]
    requires tail == [] ==> rest == ""
    ensures var text, joined := first + ([delimiter] + rest), Join([first] + tail, delimiter);
            text == joined || text == joined + [delimiter]
  {
    hide Join;
    JoinCons(first, tail, delimiter);
    var d := [delimiter];
    if tail == [] {
      assert [first] + tail == [first];
      assert first + (d + rest) == first + d;
    } else if rest == Join(tail, delimiter) + d {
      assert first + (d + (Join(tail, delimiter) + d)) == (first + (d + Join(tail, delimiter))) + d;
    }
  }

  /** and tokens that are not empty and do not contain the delimiter come back. */
  lemma {:induction false} TokensOfJoin(tokens: seq<string>, delimiter: char)
    requires tokens != [] && forall i :: 0 <= i < |tokens| ==> tokens[i] != "" && delimiter !in tokens[i]
    ensures Tokens(Join(tokens, delimiter), delimiter) == tokens && Join(tokens, delimiter) != ""
  {
    hide Join, Tokens, IndexOf;
    var first, rest := tokens[0], tokens[1..];
    assert tokens == [first] + rest;
    assert rest == [] ==> tokens == [first];
    JoinCons(first, rest, delimiter);
    var text := Join(tokens, delimiter);
    FirstToken(text, delimiter);
    if rest == [] {
      EndsAt(text, delimiter, |first|);
    } else {
      TokensOfJoin(rest, delimiter);
      EndsAt(text, delimiter, |first|);
      assert text[..|first|] == first && text[|first| + 1..] == Join(rest, delimiter);
    }
  }

  /** The first delimiter is the first. */
  lemma EndsAt(text: string, ch: char, n: nat)
    requires n <= |text| && ch !in text[..n] && (n < |text| ==> text[n] == ch)
    ensures IndexOf(text, ch) == n
  {
    hide IndexOf;
  }

  method Split(text: string, delimiter: char) returns (tokens: seq<string>)
    ensures tokens == Tokens(text, delimiter)
  {
    hide IndexOf, Tokens;
    assert Tokens("", delimiter) == [] by { NoTokens(delimiter); }
    tokens := [];
    var rest := text;
    while rest != ""
      invariant tokens + Tokens(rest, delimiter) == Tokens(text, delimiter)
      decreases |rest|
    {
      FirstToken(rest, delimiter);
      var i := IndexOf(rest, delimiter);
      var token := rest[..i];
      if i == |rest| {
        assert token == rest;
        rest := "";
      } else {
        rest := rest[i + 1..];
        assert tokens + ([token] + Tokens(rest, delimiter)) == (tokens + [token]) + Tokens(rest, delimiter);
      }
      tokens := tokens + [token];
    }
  }

  predicate IsSpace(c: char) {
    c == ' ' || '\t' <= c <= '\r'
  }

  predicate IsDigit(c: char) {
    '0' <= c <= '9'
  }

  function Trim(text: string): string {
    if text != "" && IsSpace(text[0]) then Trim(text[1..]) else text
  }

  /** The number that the digits at the front of the text spell, after those of n. */
  function Number(text: string, n: nat): nat {
    if text != "" && IsDigit(text[0]) then Number(text[1..], 10 * n + (text[0] as int - '0' as int)) else n
  }

  /** stoul: the number that the text spells, with its sign. */
  function Spelled(text: string): Result<int> {
    var t := Trim(text);
    var sign := t != "" && (t[0] == '+' || t[0] == '-');
    var digits := if sign then t[1..] else t;
    if digits == "" || !IsDigit(digits[0]) || Number(digits, 0) >= SIZE_RANGE then Err
    else Ok(if sign && t[0] == '-' then -(Number(digits, 0) as int) else Number(digits, 0))
  }

  /** to_cron_int: it keeps 8 bits of the number. */
  function ToCronInt(text: string): Result<byte> {
    var n := Spelled(text);
    if n.Err? then Err else Ok(n.value % 256)
  }

  // ----- one field of a comma list

  /** Values first, first + step, ... up to last. */
  datatype Item = Item(first: int, last: int, step: int)

  /** The two bounds that are written: everything, one value, or two values with a minus sign between them. */
  function Bounds(field: string, minval: byte, maxval: byte): (r: Result<Item>)
    ensures r.Ok? ==> r.value.step == 1
  {
    if field == "*" then Ok(Item(minval, maxval, 1))
    else if '-' !in field then
      var n := Spelled(field);
      if n.Ok? then Ok(Item(n.value, n.value, 1)) else Err
    else
      var parts := Tokens(field, '-');
      if |parts| != 2 || Spelled(parts[0]).Err? || Spelled(parts[1]).Err? then Err
      else Ok(Item(Spelled(parts[0]).value, Spelled(parts[1]).value, 1))
  }

  /** The numbers that an entry consists of, as they are written. */
  function Numbers(field: string, minval: byte, maxval: byte): Result<Item> {
    if '/' !in field then Bounds(field, minval, maxval)
    else
      var parts := Tokens(field, '/');
      if |parts| != 2 || Bounds(parts[0], minval, maxval).Err? || Spelled(parts[1]).Err? then Err
      else Ok(Bounds(parts[0], minval, maxval).value.(step := Spelled(parts[1]).value))
  }

  predicate InOrder(e: Item, minval: byte, maxval: byte) {
    minval <= e.first <= e.last <= maxval && e.step > 0
  }

  /** Without a range a step goes on to the greatest value. */
  function Extended(field: string, e: Item, maxval: byte): Item {
    if '/' in field && Tokens(field, '/') != [] && '-' !in Tokens(field, '/')[0] then e.(last := maxval) else e
  }

  /** What an entry means to its reader. */
  function Written(field: string, minval: byte, maxval: byte): (r: Result<Item>)
    ensures r.Ok? ==> InOrder(r.value, minval, maxval)
  {
    var e := Numbers(field, minval, maxval);
    if e.Err? || !InOrder(e.value, minval, maxval) then Err else Ok(Extended(field, e.value, maxval))
  }

  function LowByte(e: Item): Item {
    Item(e.first % 256, e.last % 256, e.step % 256)
  }

  /** What the code reads: of every number the low 8 bits. */
  function ReadItem(field: string, minval: byte, maxval: byte): (r: Result<Item>)
    ensures r.Ok? ==> InOrder(r.value, minval, maxval) && r.value.step < 256
  {
    var e := Numbers(field, minval, maxval);
    if e.Err? || !InOrder(LowByte(e.value), minval, maxval) then Err
    else Ok(Extended(field, LowByte(e.value), maxval))
  }

  method MakeRange(field: string, minval: byte, maxval: byte) returns (r: Result<Item>)
    ensures var e := Bounds(field, minval, maxval);
            && (r.Ok? <==> e.Ok? && InOrder(LowByte(e.value), minval, maxval))
            && (r.Ok? ==> r.value == LowByte(e.value))
  {
    var first: byte, last: byte := 0, 0;
    if |field| == 1 && field[0] == '*' {
      assert field == "*";
      first, last := minval, maxval;
    } else if '-' !in field {
      var n := ToCronInt(field);
      if n.Err? {
        return Err;
      }
      first, last := n.value, n.value;
    } else {
      var parts := Split(field, '-');
      if |parts| != 2 {
        return Err;
      }
      var n := ToCronInt(parts[0]);
      if n.Err? {
        return Err;
      }
      first := n.value;
      n := ToCronInt(parts[1]);
      if n.Err? {
        return Err;
      }
      last := n.value;
    }
    if first > maxval || last > maxval {
      return Err;
    }
    if first < minval || last < minval {
      return Err;
    }
    if first > last {
      return Err;
    }
    return Ok(Item(first, last, 1));
  }

  /** x is a whole number of steps away from base. */
  predicate OnStep(base: int, x: int, step: int)
    requires step > 0
  {
    (x - base) % step == 0
  }

  /** v is one of the values of the item. */
  predicate Denotes(e: Item, v: int)
    requires e.step > 0
  {
    e.first <= v <= e.last && OnStep(e.first, v, e.step)
  }

  /**
   * The bits an 8-bit loop from `from` in steps of delta sets on its way up to `to`: those of the steps, or, if
   * the very first step wraps around, those of steps down by 256 - delta.
   */
  predicate Stepped(from: byte, to: byte, delta: byte, j: int)
    requires delta > 0
  {
    if from + delta < 256 then from <= j <= to && OnStep(from, j, delta)
    else 0 <= j <= from && OnStep(from, j, 256 - delta)
  }

  /** Between one step and the next there is nothing. */
  lemma OneStep(base: int, x: int, step: int)
    requires step > 0 && OnStep(base, x, step)
    ensures OnStep(base, x + step, step) && OnStep(base, x - step, step)
    ensures forall j :: x - step < j < x + step ==> (OnStep(base, j, step) <==> j == x)
  {
    var q := (x - base) / step;
    assert x - base == step * q;
    assert step * (q + 1) == step * q + step && step * (q - 1) == step * q - step;
    Division(x + step - base, step, q + 1, 0);
    Division(x - step - base, step, q - 1, 0);
    forall j | x - step < j < x + step
      ensures OnStep(base, j, step) <==> j == x
    {
      if j >= x {
        Division(j - base, step, q, j - x);
      } else {
        Division(j - base, step, q - 1, j - x + step);
      }
    }
  }

  lemma AtBase(base: int, step: int)
    requires step > 0
    ensures OnStep(base, base, step)
  {
  }

  /** A step that does not wrap around at once never does, because the bit sets are short. */
  lemma NoWrap(from: byte, to: byte, delta: byte, i: byte)
    requires from <= i <= to < 60 && delta > 0 && from + delta < 256 && OnStep(from, i, delta)
    ensures i + delta < 256
  {
    if i + delta >= 256 {
      Division(i - from, delta, 0, i - from);
    }
  }

  /** The bits set by the time the loop is at i. */
  predicate Passed(from: byte, to: byte, delta: byte, i: byte, j: int)
    requires delta > 0
  {
    Stepped(from, to, delta, j) && (i > to || if from + delta < 256 then j < i else j > i)
  }

  /** Where the loop stands. */
  predicate OnTrack(from: byte, to: byte, delta: byte, i: byte)
    requires delta > 0
  {
    if from + delta < 256 then from <= i && OnStep(from, i, delta)
    else i > to || (i <= from && OnStep(from, i, 256 - delta))
  }

  lemma OneRound(from: byte, to: byte, delta: byte, i: byte)
    requires from <= to < 60 && delta > 0 && i <= to && OnTrack(from, to, delta, i)
    ensures var next: byte := (i + delta) % 256;
            && OnTrack(from, to, delta, next)
            && (next <= to ==> if from + delta < 256 then i < next else next < i)
            && forall j :: Passed(from, to, delta, next, j) <==> Passed(from, to, delta, i, j) || j == i
  {
    hide OnStep;
    if from + delta < 256 {
      NoWrap(from, to, delta, i);
      OneStep(from, i, delta);
    } else {
      OneStep(from, i, 256 - delta);
    }
  }

  /** The loop of set_cron_field; it ends for every step from 1 to 255. */
  method SetSteps(target: array<bool>, from: byte, to: byte, delta: byte)
    requires from <= to < target.Length <= 60 && delta > 0
    modifies target
    ensures forall j :: 0 <= j < target.Length ==> target[j] == (old(target[j]) || Stepped(from, to, delta, j))
  {
    hide Stepped, OnTrack, Passed;
    NothingPassed(from, to, delta);
    var i: byte := from;
    while i <= to
      invariant OnTrack(from, to, delta, i)
      invariant forall j :: 0 <= j < target.Length ==> target[j] == (old(target[j]) || Passed(from, to, delta, i, j))
      decreases if i > to then 0 else if from + delta < 256 then 256 - i else i + 1
    {
      OneRound(from, to, delta, i);
      target[i] := true;
      i := (i + delta) % 256;
    }
    AllPassed(from, to, delta, i);
  }

  lemma NothingPassed(from: byte, to: byte, delta: byte)
    requires from <= to < 60 && delta > 0
    ensures OnTrack(from, to, delta, from) && forall j :: !Passed(from, to, delta, from, j)
  {
    AtBase(from, delta);
    AtBase(from, 256 - delta);
    hide OnStep;
  }

  lemma AllPassed(from: byte, to: byte, delta: byte, i: byte)
    requires i > to && delta > 0
    ensures forall j :: Passed(from, to, delta, i, j) <==> Stepped(from, to, delta, j)
  {
  }

  /** The loop sets the steps from `from` to `to` and nothing else exactly if its first step does not wrap around. */
  lemma StepsExact(from: byte, to: byte, delta: byte)
    requires from <= to < 60 && delta > 0
    ensures (forall j :: Stepped(from, to, delta, j) <==> from <= j <= to && OnStep(from, j, delta))
            <==> from + delta < 256
  {
    if from + delta >= 256 {
      var j := from - (256 - delta);
      AtBase(from, 256 - delta);
      OneStep(from, from, 256 - delta);
      assert Stepped(from, to, delta, j) && j < from;
    }
  }

  /** With a step of 256 or more the low 8 bits must lead beyond `to` at once. */
  lemma LongStep(from: byte, to: byte, step: int)
    requires from <= to < 60 && step >= 256 && step % 256 > 0
    ensures (forall j :: Stepped(from, to, step % 256, j) <==> from <= j <= to && OnStep(from, j, step))
            <==> from + step % 256 < 256 && step % 256 > to - from
  {
    hide Stepped, OnStep;
    var delta: byte := step % 256;
    AtBase(from, step);
    OneStep(from, from, step);
    NextStepped(from, to, delta);
  }

  /** The second bit that is set. */
  lemma NextStepped(from: byte, to: byte, delta: byte)
    requires from <= to < 60 && delta > 0
    ensures from + delta >= 256 ==> Stepped(from, to, delta, from + delta - 256)
    ensures from + delta < 256 ==> forall j :: from < j < from + delta ==> !Stepped(from, to, delta, j)
    ensures from + delta <= to ==> Stepped(from, to, delta, from + delta)
    ensures Stepped(from, to, delta, from)
    ensures from + delta < 256 ==> forall j :: Stepped(from, to, delta, j) ==> from <= j <= to
  {
    AtBase(from, delta);
    AtBase(from, 256 - delta);
    OneStep(from, from, delta);
    OneStep(from, from, 256 - delta);
    hide OnStep;
  }

  // ----- a whole field

  /** The entry sets bit j. */
  predicate Hits(field: string, minval: byte, maxval: byte, j: int) {
    var e := ReadItem(field, minval, maxval);
    e.Ok? && Stepped(e.value.first - minval, e.value.last - minval, e.value.step, j)
  }

  /** One of the first n entries does. */
  predicate SomeHits(fields: seq<string>, n: nat, minval: byte, maxval: byte, j: int) {
    exists k :: 0 <= k < n <= |fields| && Hits(fields[k], minval, maxval, j)
  }

  predicate Readable(value: string, minval: byte, maxval: byte) {
    && (value != "" ==> value[|value| - 1] != ',')
    && Tokens(value, ',') != []
    && forall k :: 0 <= k < |Tokens(value, ',')| ==> ReadItem(Tokens(value, ',')[k], minval, maxval).Ok?
  }

  /** The code accepts an entry as its reader does, and then sets the bits of the values that the entry denotes. */
  ghost predicate AsMeant(field: string, minval: byte, maxval: byte) {
    var w := Written(field, minval, maxval);
    && (ReadItem(field, minval, maxval).Ok? <==> w.Ok?)
    && (w.Ok? ==> forall j :: Hits(field, minval, maxval, j) <==> Denotes(w.value, j + minval))
  }

  /** The step neither wraps around in 8 bits nor loses a bit that matters. */
  predicate ShortStep(e: Item, minval: byte) {
    e.first - minval + e.step % 256 < 256 && (e.step >= 256 ==> e.step % 256 > e.last - e.first)
  }

  /** This is so exactly if an entry in order has a short step and one not in order is not so modulo 256 either. */
  lemma EntryIsExact(field: string, minval: byte, maxval: byte)
    requires minval <= maxval < minval + 60
    ensures var e, w := Numbers(field, minval, maxval), Written(field, minval, maxval);
            AsMeant(field, minval, maxval)
            <==> if w.Ok? then ShortStep(w.value, minval)
                 else e.Err? || !InOrder(LowByte(e.value), minval, maxval)
  {
    hide Stepped, OnStep, Numbers, Tokens;
    var w := Written(field, minval, maxval);
    if w.Ok? && w.value.step % 256 != 0 {
      var e := w.value;
      var from: byte, to: byte, delta: byte := e.first - minval, e.last - minval, e.step % 256;
      forall j
        ensures Hits(field, minval, maxval, j) <==> Stepped(from, to, delta, j)
        ensures Denotes(e, j + minval) <==> from <= j <= to && OnStep(from, j, e.step)
      {
        Shifted(from, j, e.step, minval);
      }
      if e.step < 256 {
        StepsExact(from, to, delta);
      } else {
        LongStep(from, to, e.step);
      }
    }
  }

  /** If all its numbers are below 256, an entry is mistaken only if its first step wraps around. */
  lemma SmallNumbers(field: string, minval: byte, maxval: byte)
    requires minval <= maxval < minval + 60
    requires var e := Numbers(field, minval, maxval);
             e.Ok? ==> 0 <= e.value.first < 256 && 0 <= e.value.last < 256 && 0 <= e.value.step < 256
    ensures var w := Written(field, minval, maxval);
            AsMeant(field, minval, maxval) <==> w.Ok? ==> w.value.first - minval + w.value.step < 256
  {
    hide AsMeant, Numbers, Tokens;
    EntryIsExact(field, minval, maxval);
  }

  /** The minute "300" is out of range, and is taken for minute 44. */
  lemma ThreeHundred()
    ensures Written("300", 0, 59).Err? && ReadItem("300", 0, 59) == Ok(Item(44, 44, 1)) && !AsMeant("300", 0, 59)
  {
    assert "300"[1..] == "00" && "00"[1..] == "0" && "0"[1..] == "";
    assert Number("0", 30) == Number("", 300) == 300;
    assert Number("300", 0) == Number("00", 3) == Number("0", 30);
  }

  lemma Shifted(base: int, x: int, step: int, offset: int)
    requires step > 0
    ensures OnStep(base + offset, x + offset, step) == OnStep(base, x, step)
  {
  }

  /** One of the entries denotes value v. */
  ghost predicate SomeDenotes(fields: seq<string>, minval: byte, maxval: byte, v: int) {
    exists k :: 0 <= k < |fields| && Written(fields[k], minval, maxval).Ok?
                && Denotes(Written(fields[k], minval, maxval).value, v)
  }

  /** A comma list of entries in order with short steps is accepted and stands for the union of what they denote. */
  lemma FieldIsUnion(value: string, minval: byte, maxval: byte)
    requires minval <= maxval < minval + 60
    requires Tokens(value, ',') != [] && value[|value| - 1] != ','
    requires forall k :: 0 <= k < |Tokens(value, ',')| ==>
               var w := Written(Tokens(value, ',')[k], minval, maxval); w.Ok? && ShortStep(w.value, minval)
    ensures Readable(value, minval, maxval)
    ensures var fields := Tokens(value, ',');
            forall j ::
              SomeHits(fields, |fields|, minval, maxval, j) <==> SomeDenotes(fields, minval, maxval, j + minval)
  {
    hide Written, ReadItem, Hits, Denotes, Tokens, ShortStep;
    var fields := Tokens(value, ',');
    forall k | 0 <= k < |fields|
      ensures AsMeant(fields[k], minval, maxval)
    {
      EntryIsExact(fields[k], minval, maxval);
    }
  }

  /** The body of the loop of set_cron_field. */
  method SetEntry(field: string, target: array<bool>, minval: byte, maxval: byte) returns (ok: bool)
    requires minval <= maxval && maxval - minval < target.Length <= 60
    modifies target
    ensures ok <==> ReadItem(field, minval, maxval).Ok?
    ensures ok ==> forall j :: 0 <= j < target.Length ==>
                     target[j] == (old(target[j]) || Hits(field, minval, maxval, j))
  {
    hide Stepped, Spelled, Tokens, Bounds;
    if '/' !in field {
      var r := MakeRange(field, minval, maxval);
      if r.Err? {
        return false;
      }
      SetSteps(target, r.value.first - minval, r.value.last - minval, 1);
    } else {
      var parts := Split(field, '/');
      if |parts| != 2 {
        return false;
      }
      var r := MakeRange(parts[0], minval, maxval);
      if r.Err? {
        return false;
      }
      var last := if '-' !in parts[0] then maxval else r.value.last;
      var delta := ToCronInt(parts[1]);
      if delta.Err? || delta.value <= 0 {
        return false;
      }
      SetSteps(target, r.value.first - minval, last - minval, delta.value);
    }
    return true;
  }

  method SetCronField(value: string, target: array<bool>, minval: byte, maxval: byte) returns (ok: bool)
    requires minval <= maxval && maxval - minval < target.Length <= 60
    modifies target
    ensures ok <==> Readable(value, minval, maxval)
    ensures ok ==> forall j :: 0 <= j < target.Length ==>
                     target[j] == (old(target[j])
                                   || SomeHits(Tokens(value, ','), |Tokens(value, ',')|, minval, maxval, j))
  {
    hide Hits, ReadItem, Tokens;
    if |value| > 0 && value[|value| - 1] == ',' {
      return false;
    }
    var fields := Split(value, ',');
    if fields == [] {
      return false;
    }
    for k := 0 to |fields|
      invariant forall i :: 0 <= i < k ==> ReadItem(fields[i], minval, maxval).Ok?
      invariant forall j :: 0 <= j < target.Length ==>
                  target[j] == (old(target[j]) || SomeHits(fields, k, minval, maxval, j))
    {
      ghost var before := target[..];
      ok := SetEntry(fields[k], target, minval, maxval);
      if !ok {
        return;
      }
      forall j | 0 <= j < target.Length
        ensures target[j] == (old(target[j]) || SomeHits(fields, k + 1, minval, maxval, j))
      {
        assert target[j] == (before[j] || Hits(fields[k], minval, maxval, j));
        assert SomeHits(fields, k + 1, minval, maxval, j)
               <==> SomeHits(fields, k, minval, maxval, j) || Hits(fields[k], minval, maxval, j);
      }
    }
    return true;
  }

  // ----- the whole expression

  function NonEmpty(tokens: seq<string>): seq<string> {
    if tokens == [] then [] else (if tokens[0] == "" then [] else [tokens[0]]) + NonEmpty(tokens[1..])
  }

  /** A question mark for a day means any day. */
  function AnyDay(value: string): string {
    if value == "?" then "*" else value
  }

  /** The text allows exactly the set bits. */
  predicate Allows(value: string, minval: byte, maxval: byte, bits: Bits) {
    && Readable(value, minval, maxval)
    && forall j :: 0 <= j < |bits| ==> bits[j] == SomeHits(Tokens(value, ','), |Tokens(value, ',')|, minval, maxval, j)
  }

  lemma AllowsSome(value: string, minval: byte, maxval: byte, bits: Bits)
    requires Allows(value, minval, maxval, bits) && minval <= maxval && maxval - minval < |bits|
    ensures HasBit(bits, 0)
  {
    hide Tokens;
    var field := Tokens(value, ',')[0];
    var e := ReadItem(field, minval, maxval).value;
    var j := e.first - minval;
    AtBase(j, e.step);
    AtBase(j, 256 - e.step);
    assert Hits(field, minval, maxval, j);
    assert bits[j];
  }

  method ReadField(value: string, n: nat, minval: byte, maxval: byte) returns (ok: bool, bits: Bits)
    requires minval <= maxval && maxval - minval < n <= 60
    ensures ok <==> Readable(value, minval, maxval)
    ensures ok ==> |bits| == n && Allows(value, minval, maxval, bits) && HasBit(bits, 0)
  {
    hide SomeHits, Tokens, ReadItem;
    var target := new bool[n](_ => false);
    ok := SetCronField(value, target, minval, maxval);
    bits := target[..];
    if ok {
      AllowsSome(value, minval, maxval, bits);
    }
  }

  /** The fields of an expression as they are read. */
  function DaysOfWeekText(value: string): string {
    AnyDay(Ordinals(ToUpper(value), DAYS, 0))
  }

  function MonthsText(value: string): string {
    Ordinals(ToUpper(value), MONTHS, 0)
  }

  /** Six fields that can be read. */
  predicate Reads(expr: string) {
    var f := NonEmpty(Tokens(expr, ' '));
    && |f| == 6
    && Readable(f[0], 0, 59) && Readable(f[1], 0, 59) && Readable(f[2], 0, 23)
    && Readable(AnyDay(f[3]), 1, 31) && Readable(MonthsText(f[4]), 1, 12) && Readable(DaysOfWeekText(f[5]), 0, 6)
  }

  /** A text without a space is one field at most. */
  lemma NoSpaceNoReading(expr: string)
    requires ' ' !in expr
    ensures !Reads(expr)
  {
    hide Readable, Tokens, MonthsText, DaysOfWeekText;
    if expr == "" {
      NoTokens(' ');
    } else {
      FirstToken(expr, ' ');
      assert NonEmpty([expr]) == [expr];
    }
  }

  /** A list that names a day twice cannot be read, because its second name is not replaced. */
  lemma MondayTwiceRejected()
    ensures DaysOfWeekText("MON,MON") == "1,MON" && !Readable("1,MON", 0, 6)
  {
    hide Tokens, Ordinals, ReadItem;
    MondayTwice();
    UpperAlready();
    MondayTwiceTokens();
    NotANumber();
    assert Tokens("1,MON", ',')[1] == "MON";
  }

  lemma UpperAlready()
    ensures ToUpper("MON,MON") == "MON,MON"
  {
  }

  lemma MondayTwiceTokens()
    ensures Tokens("1,MON", ',') == ["1", "MON"]
  {
    hide Tokens;
    JoinCons("1", ["MON"], ',');
    JoinCons("MON", [], ',');
    assert ["1"] + ["MON"] == ["1", "MON"];
    assert Join(["1", "MON"], ',') == "1" + ([','] + "MON") == "1,MON";
    TokensOfJoin(["1", "MON"], ',');
  }

  lemma NotANumber()
    ensures ReadItem("MON", 0, 6).Err?
  {
  }

  /** The expression allows exactly the set bits. */
  predicate Says(expr: string, cex: CronExpr) {
    var f := NonEmpty(Tokens(expr, ' '));
    && |f| == 6
    && Allows(f[0], 0, 59, cex.seconds) && Allows(f[1], 0, 59, cex.minutes) && Allows(f[2], 0, 23, cex.hours)
    && Allows(AnyDay(f[3]), 1, 31, cex.daysOfMonth) && Allows(MonthsText(f[4]), 1, 12, cex.months)
    && Allows(DaysOfWeekText(f[5]), 0, 6, cex.daysOfWeek)
  }

  /** One of the day fields is a star or a question mark. */
  predicate OpenDay(expr: string) {
    var f := NonEmpty(Tokens(expr, ' '));
    |f| == 6 && (f[3] == "*" || f[3] == "?" || f[5] == "*" || f[5] == "?")
  }

  /** make_cron with cron_standard_traits; Err stands for bad_cronexpr. */
  method MakeCron(expr: string) returns (r: Result<CronExpr>)
    ensures r.Ok? <==> Reads(expr)
    ensures r.Ok? ==> ValidExpr(r.value) && Says(expr, r.value)
  {
    hide Readable, Allows, Tokens, HasBit, Ordinals, ToUpper;
    if expr == "" {
      NoTokens(' ');
      return Err;
    }
    var fields := Split(expr, ' ');
    fields := NonEmpty(fields);
    if |fields| != 6 {
      return Err;
    }
    var ok, seconds := ReadField(fields[0], 60, 0, 59);
    if !ok {
      return Err;
    }
    var minutes, hours, daysOfWeek, daysOfMonth, months;
    ok, minutes := ReadField(fields[1], 60, 0, 59);
    if !ok {
      return Err;
    }
    ok, hours := ReadField(fields[2], 24, 0, 23);
    if !ok {
      return Err;
    }
    var days := ReplaceOrdinals(ToUpper(fields[5]), DAYS);
    ok, daysOfWeek := ReadField(AnyDay(days), 7, 0, 6);
    if !ok {
      return Err;
    }
    ok, daysOfMonth := ReadField(AnyDay(fields[3]), 31, 1, 31);
    if !ok {
      return Err;
    }
    var month := ReplaceOrdinals(ToUpper(fields[4]), MONTHS);
    ok, months := ReadField(month, 12, 1, 12);
    if !ok {
      return Err;
    }
    return Ok(CronExpr(seconds, minutes, hours, daysOfWeek, daysOfMonth, months));
  }

  lemma StarReads(minval: byte, maxval: byte, j: int)
    requires minval <= maxval
    ensures Tokens("*", ',') == ["*"]
    ensures Hits("*", minval, maxval, j) <==> 0 <= j <= maxval - minval
  {
    assert IndexOf("*", ',') == 1;
    Division(j, 1, j, 0);
  }

  /** A star leaves a field unrestricted, */
  lemma StarAllowsAll(minval: byte, maxval: byte, bits: Bits)
    requires minval <= maxval && |bits| == maxval - minval + 1 && Allows("*", minval, maxval, bits)
    ensures AllSet(bits)
  {
    hide Tokens, Hits;
    forall j | 0 <= j < |bits|
      ensures bits[j]
    {
      StarReads(minval, maxval, j);
      assert Hits(Tokens("*", ',')[0], minval, maxval, j);
    }
  }

  /** and so does a question mark for a day. */
  lemma OpenDayIsFree(expr: string, cex: CronExpr)
    requires ValidExpr(cex) && Says(expr, cex) && OpenDay(expr)
    ensures DaysFree(cex)
  {
    hide Tokens, Allows, NonEmpty, AllSet, Ordinals, ToUpper, HasBit;
    var f := NonEmpty(Tokens(expr, ' '));
    if f[3] == "*" || f[3] == "?" {
      StarAllowsAll(1, 31, cex.daysOfMonth);
    } else {
      NoNames(f[5], DAYS);
      StarAllowsAll(0, 6, cex.daysOfWeek);
    }
  }

  /**
   * What the answer `next` of cron_next at cur is worth: if valid it is later and, for a reliable expression, right;
   * where the expression misleads it is wrong; and an unfailing expression has one, except at the edge of time.  For an
   * orderly expression it is the next instant exactly if the search is not hasty.
   */
  ghost predicate Worth(cex: CronExpr, cur: int, next: int)
    requires ValidExpr(cex)
  {
    && (next != INVALID_TIME ==> cur < next && (Reliable(cex) ==> Satisfies(cex, ToTm(next))))
    && (Misleads(cex, cur) ==> next != INVALID_TIME && !Satisfies(cex, ToTm(next)))
    && (InTime(cur) && Unfailing(cex) ==> next != INVALID_TIME)
    && (InTime(cur) && Orderly(cex) ==> (Right(cex, cur, next) <==> !Hasty(cex, ToTm(cur))))
  }

  /** The answer comes from what the text says; with a star or a question mark for a day a valid one is right. */
  ghost predicate FromText(expr: string, cur: int, next: int) {
    exists cex :: ValidExpr(cex) && Says(expr, cex) && Worth(cex, cur, next)
                  && (OpenDay(expr) && next != INVALID_TIME ==> Satisfies(cex, ToTm(next)))
  }

  /**
   * What the engine may answer when asked at cur how many seconds it is to the next instant that the text allows.
   * Err stands for bad_cronexpr: it comes for every text that cannot be read and, away from the edge of time, for
   * no other.
   */
  ghost predicate Answers(expr: string, cur: int, r: Result<int>) {
    && (r.Ok? ==> Reads(expr) && FromText(expr, cur, cur + r.value))
    && (InTime(cur) && Reads(expr) ==> r.Ok?)
  }

  /** What SetTimerCron and Run ask the engine. */
  method SecondsToNext(expr: string, cur: int) returns (r: Result<int>)
    ensures Answers(expr, cur, r)
  {
    hide Reads, Says, OpenDay, HasBit, Satisfies, ToTm, DaysFree, Reliable, Unfailing, Misleads, Orderly, Right, Hasty;
    var cex := MakeCron(expr);
    if cex.Err? {
      return Err;
    }
    var ok, next := CronNext(cex.value, cur);
    if !ok {
      return Err;
    }
    if OpenDay(expr) {
      OpenDayIsFree(expr, cex.value);
      FreeIsReliable(cex.value);
    }
    assert FromText(expr, cur, next);
    return Ok(next - cur);
  }
}
