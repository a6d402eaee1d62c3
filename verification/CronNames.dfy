// How include/dmcroncpp.h turns the names of days and months into numbers.

module CronNames {
  const DAYS: seq<string> := ["SUN", "MON", "TUE", "WED", "THU", "FRI", "SAT"]
  const MONTHS: seq<string> :=
    ["NIL", "JAN", "FEB", "MAR", "APR", "MAY", "JUN", "JUL", "AUG", "SEP", "OCT", "NOV", "DEC"]

  function ToUpper(text: string): (r: string)
    ensures |r| == |text|
  {
    seq(|text|, i requires 0 <= i < |text| =>
      if 'a' <= text[i] <= 'z' then (text[i] as int - 'a' as int + 'A' as int) as char else text[i])
  }

  predicate At(text: string, i: nat, name: string) {
    i + |name| <= |text| && text[i..i + |name|] == name
  }

  /** Where the name first occurs, or the length of the text. */
  function Find(text: string, name: string): (i: nat)
    requires name != ""
    ensures i <= |text| && (i < |text| ==> At(text, i, name)) && forall k: nat :: k < i ==> !At(text, k, name)
  {
    FindFrom(text, name, 0)
  }

  function FindFrom(text: string, name: string, from: nat): (i: nat)
    requires name != "" && from <= |text| && forall k: nat :: k < from ==> !At(text, k, name)
    ensures from <= i <= |text| && (i < |text| ==> At(text, i, name)) && forall k: nat :: k < i ==> !At(text, k, name)
    decreases |text| - from
  {
    if from == |text| || At(text, from, name) then from else FindFrom(text, name, from + 1)
  }

  function Decimal(n: nat): string
    requires n < 100
  {
    if n < 10 then [Digit(n)] else [Digit(n / 10), Digit(n % 10)]
  }

  function Digit(n: nat): char
    requires n < 10
  {
    (n + '0' as int) as char
  }

  predicate Named(names: seq<string>) {
    |names| < 100 && forall i :: 0 <= i < |names| ==> |names[i]| == 3
  }

  /** Every name from number i on is replaced once, where it first occurs, by its number. */
  function Ordinals(text: string, names: seq<string>, i: nat): string
    requires Named(names) && i <= |names|
    decreases |names| - i
  {
    if i == |names| then text
    else
      var pos := Find(text, names[i]);
      Ordinals(if pos == |text| then text else text[..pos] + Decimal(i) + text[pos + 3..], names, i + 1)
  }

  method ReplaceOrdinals(text: string, replacement: seq<string>) returns (r: string)
    requires Named(replacement)
    ensures r == Ordinals(text, replacement, 0)
  {
    hide Find, Decimal;
    r := text;
    for i := 0 to |replacement|
      invariant Ordinals(r, replacement, i) == Ordinals(text, replacement, 0)
    {
      var pos := Find(r, replacement[i]);
      if pos != |r| {
        r := r[..pos] + Decimal(i) + r[pos + 3..];
      }
    }
  }

  /** A text shorter than a name has none in it, */
  lemma {:induction false} NoNameIn(text: string, names: seq<string>, i: nat)
    requires Named(names) && i <= |names| && |text| < 3
    ensures Ordinals(text, names, i) == text
    decreases |names| - i
  {
    if i < |names| {
      NoNameIn(text, names, i + 1);
    }
  }

  lemma NoNames(text: string, names: seq<string>)
    requires Named(names) && (text == "*" || text == "?")
    ensures Ordinals(ToUpper(text), names, 0) == text
  {
    assert ToUpper(text) == text;
    NoNameIn(text, names, 0);
  }

  /** and a name by itself is read as its number. */
  lemma {:induction false} NameIsNumber(names: seq<string>, i: nat, k: nat)
    requires Named(names) && i <= k < |names| && forall j :: i <= j < k ==> names[j] != names[k]
    ensures Ordinals(names[k], names, i) == Decimal(k)
    decreases k - i
  {
    var text := names[k];
    assert text[0..3] == text;
    assert forall p: nat :: At(text, p, names[i]) ==> p == 0;
    if i == k {
      assert At(text, 0, names[k]);
      assert text[..0] + Decimal(k) + text[3..] == Decimal(k);
      NoNameIn(Decimal(k), names, k + 1);
    } else {
      assert !At(text, 0, names[i]);
      NameIsNumber(names, i + 1, k);
    }
  }

  // ----- what that makes of a text in which names are kept apart

  /** A text is a name, by its number, or a character. */
  datatype Piece = Name(k: nat) | Char(c: char)

  predicate IsLetter(c: char) {
    'A' <= c <= 'Z'
  }

  /** Different names of three letters each. */
  predicate Distinctive(names: seq<string>) {
    && Named(names)
    && (forall i, j :: 0 <= i < j < |names| ==> names[i] != names[j])
    && forall i, j :: 0 <= i < |names| && 0 <= j < 3 ==> IsLetter(names[i][j])
  }

  /** No name follows a name, and there are no other letters. */
  predicate Apart(p: seq<Piece>, names: seq<string>) {
    && (forall j :: 0 <= j < |p| ==> if p[j].Name? then p[j].k < |names| else !IsLetter(p[j].c))
    && forall j :: 0 < j < |p| && p[j].Name? ==> p[j - 1].Char?
  }

  /** How the last piece is written when the names before number i have been replaced, each where it first occurs. */
  function LastText(p: seq<Piece>, names: seq<string>, i: nat): string
    requires Distinctive(names) && Apart(p, names) && p != []
  {
    match p[|p| - 1]
    case Char(c) => [c]
    case Name(k) => if k < i && p[|p| - 1] !in p[..|p| - 1] then Decimal(k) else names[k]
  }

  function Text(p: seq<Piece>, names: seq<string>, i: nat): string
    requires Distinctive(names) && Apart(p, names)
  {
    if p == [] then "" else Text(p[..|p| - 1], names, i) + LastText(p, names, i)
  }

  lemma LastWritten(p: seq<Piece>, names: seq<string>, i: nat)
    requires Distinctive(names) && Apart(p, names) && p != []
    ensures var last := LastText(p, names, i);
            && 1 <= |last| <= 3 && Text(p, names, i) == Text(p[..|p| - 1], names, i) + last
            && (IsLetter(last[0]) ==> p[|p| - 1].Name? && last == names[p[|p| - 1].k])
            && (p[|p| - 1].Char? ==> |last| == 1)
            && (forall k :: 0 <= k < |last| && IsLetter(last[k]) ==> IsLetter(last[0]))
  {
  }

  /** A name that is still there stands where its piece does. */
  lemma {:induction false} Occurs(p: seq<Piece>, names: seq<string>, i: nat, pos: nat) returns (j: nat)
    requires Distinctive(names) && Apart(p, names) && i < |names| && At(Text(p, names, i), pos, names[i])
    ensures j < |p| && p[j] == Name(i) && pos == |Text(p[..j], names, i)|
  {
    hide Text, LastText;
    if p == [] {
      NothingWritten(names, i);
      assert false;
    }
    var n := |p| - 1;
    var init := p[..n];
    LastWritten(p, names, i);
    var front, text := Text(init, names, i), Text(p, names, i);
    if pos + 3 <= |front| {
      assert text[pos..pos + 3] == front[pos..pos + 3];
      j := Occurs(init, names, i, pos);
      assert init[..j] == p[..j];
    } else {
      NotAcross(p, names, i, pos);
      j := n;
    }
  }

  lemma NothingWritten(names: seq<string>, i: nat)
    requires Distinctive(names)
    ensures Text([], names, i) == ""
  {
  }

  lemma LetterAt(text: string, pos: nat, names: seq<string>, i: nat, at: nat)
    requires Distinctive(names) && i < |names| && At(text, pos, names[i]) && pos <= at < pos + 3
    ensures at < |text| && IsLetter(text[at])
  {
    assert text[at] == text[pos..pos + 3][at - pos] == names[i][at - pos];
  }

  /** It does not begin before the last piece and end in it. */
  lemma NotAcross(p: seq<Piece>, names: seq<string>, i: nat, pos: nat)
    requires Distinctive(names) && Apart(p, names) && i < |names| && p != []
    requires At(Text(p, names, i), pos, names[i]) && pos + 3 > |Text(p[..|p| - 1], names, i)|
    ensures p[|p| - 1] == Name(i) && pos == |Text(p[..|p| - 1], names, i)|
  {
    hide Text, LastText;
    var n := |p| - 1;
    var init, last := p[..n], LastText(p, names, i);
    LastWritten(p, names, i);
    var front, text := Text(init, names, i), Text(p, names, i);
    var at := if pos > |front| then pos else |front|;
    LetterAt(text, pos, names, i, at);
    assert text[at] == last[at - |front|] && IsLetter(last[at - |front|]);
    assert IsLetter(last[0]);
    if pos < |front| {
      LetterAt(text, pos, names, i, |front| - 1);
      if init == [] {
        NothingWritten(names, i);
      } else {
        LastWritten(init, names, i);
      }
    } else {
      assert text[pos..pos + 3] == last;
    }
  }

  /** The text up to a piece is a beginning of the whole. */
  lemma {:induction false} Begins(p: seq<Piece>, names: seq<string>, i: nat, j: nat)
    requires Distinctive(names) && Apart(p, names) && j <= |p|
    ensures Text(p[..j], names, i) <= Text(p, names, i)
    decreases |p|
  {
    if j == |p| {
      assert p[..j] == p;
    } else {
      Begins(p[..|p| - 1], names, i, j);
      assert p[..|p| - 1][..j] == p[..j];
    }
  }

  /** Replacing a name that is not there changes nothing, */
  lemma {:induction false} NoSuchName(p: seq<Piece>, names: seq<string>, i: nat)
    requires Distinctive(names) && Apart(p, names) && Name(i) !in p
    ensures Text(p, names, i + 1) == Text(p, names, i)
  {
    if p != [] {
      NoSuchName(p[..|p| - 1], names, i);
    }
  }

  /** and replacing it where it first occurs is what the next number does. */
  lemma {:induction false} FirstReplaced(p: seq<Piece>, names: seq<string>, i: nat, j: nat)
    requires Distinctive(names) && Apart(p, names) && i < |names| && j < |p| && p[j] == Name(i) && Name(i) !in p[..j]
    ensures var pos, text := |Text(p[..j], names, i)|, Text(p, names, i);
            At(text, pos, names[i]) && Text(p, names, i + 1) == text[..pos] + Decimal(i) + text[pos + 3..]
    decreases |p|
  {
    hide Text, LastText, Decimal;
    var n := |p| - 1;
    var front, last := Text(p[..n], names, i), LastText(p, names, i);
    LastWritten(p, names, i);
    LastWritten(p, names, i + 1);
    LastTurns(p, names, i);
    if j == n {
      NoSuchName(p[..n], names, i);
      ReplaceEnd(front, names[i], Decimal(i));
    } else {
      assert p[..n][..j] == p[..j] && p[..n][j] == Name(i);
      FirstReplaced(p[..n], names, i, j);
      ReplaceInside(front, last, |Text(p[..j], names, i)|, Decimal(i));
    }
  }

  /** With the next number the last piece changes exactly if it is the first that bears this number. */
  lemma LastTurns(p: seq<Piece>, names: seq<string>, i: nat)
    requires Distinctive(names) && Apart(p, names) && i < |names| && p != []
    ensures if p[|p| - 1] == Name(i) && Name(i) !in p[..|p| - 1]
            then LastText(p, names, i) == names[i] && LastText(p, names, i + 1) == Decimal(i)
            else LastText(p, names, i + 1) == LastText(p, names, i)
  {
  }

  lemma ReplaceEnd(front: string, name: string, number: string)
    requires |name| == 3
    ensures var text := front + name;
            At(text, |front|, name) && text[..|front|] + number + text[|front| + 3..] == front + number
  {
    var text := front + name;
    assert text[..|front|] == front && text[|front| + 3..] == [];
  }

  lemma ReplaceInside(front: string, last: string, pos: nat, number: string)
    requires pos + 3 <= |front|
    ensures var text := front + last;
            && text[pos..pos + 3] == front[pos..pos + 3]
            && text[..pos] + number + text[pos + 3..] == (front[..pos] + number + front[pos + 3..]) + last
  {
    var text := front + last;
    assert text[..pos] == front[..pos] && text[pos + 3..] == front[pos + 3..] + last;
  }

  lemma NotBefore(p: seq<Piece>, j: nat, f: nat)
    requires j <= |p| && f < |p| && p[f] !in p[..j]
    ensures j <= f
  {
  }

  /** Where the name is found. */
  lemma FoundFirst(p: seq<Piece>, names: seq<string>, i: nat, j: nat)
    requires Distinctive(names) && Apart(p, names) && i < |names| && j < |p| && p[j] == Name(i) && Name(i) !in p[..j]
    ensures Find(Text(p, names, i), names[i]) == |Text(p[..j], names, i)| < |Text(p, names, i)|
  {
    hide Text, Find;
    FirstReplaced(p, names, i, j);
    var text := Text(p, names, i);
    var f := Occurs(p, names, i, Find(text, names[i]));
    NotBefore(p, j, f);
    assert p[..f][..j] == p[..j];
    Begins(p[..f], names, i, j);
  }

  /** So the names become their numbers, each of them where it first occurs and nowhere else. */
  lemma {:induction false} NamesAreNumbers(p: seq<Piece>, names: seq<string>, i: nat)
    requires Distinctive(names) && Apart(p, names) && i <= |names|
    ensures Ordinals(Text(p, names, i), names, i) == Text(p, names, |names|)
    decreases |names| - i
  {
    hide Text, Find, LastText;
    if i < |names| {
      OneNameReplaced(p, names, i);
      NamesAreNumbers(p, names, i + 1);
    }
  }

  lemma OneNameReplaced(p: seq<Piece>, names: seq<string>, i: nat)
    requires Distinctive(names) && Apart(p, names) && i < |names|
    ensures var text := Text(p, names, i);
            var pos := Find(text, names[i]);
            && (pos < |text| ==> pos + 3 <= |text|)
            && Text(p, names, i + 1) == if pos == |text| then text else text[..pos] + Decimal(i) + text[pos + 3..]
  {
    hide Text, Find, LastText, Decimal;
    var text := Text(p, names, i);
    if Name(i) in p {
      var j := FirstOf(p, Name(i));
      FoundFirst(p, names, i, j);
      FirstReplaced(p, names, i, j);
    } else {
      NoSuchName(p, names, i);
      NotThere(p, names, i);
    }
  }

  lemma NotThere(p: seq<Piece>, names: seq<string>, i: nat)
    requires Distinctive(names) && Apart(p, names) && i < |names| && Name(i) !in p
    ensures Find(Text(p, names, i), names[i]) == |Text(p, names, i)|
  {
    hide Text, Find;
    var text := Text(p, names, i);
    if Find(text, names[i]) < |text| {
      var _ := Occurs(p, names, i, Find(text, names[i]));
    }
  }

  lemma {:induction false} FirstOf(p: seq<Piece>, x: Piece) returns (j: nat)
    requires x in p
    ensures j < |p| && p[j] == x && x !in p[..j]
  {
    if p[0] == x {
      j := 0;
    } else {
      var k := FirstOf(p[1..], x);
      j := k + 1;
      assert p[..j] == [p[0]] + p[1..][..k];
    }
  }

  lemma TablesAreDistinctive()
    ensures Distinctive(DAYS) && Distinctive(MONTHS)
  {
    DaysAreDistinctive();
    MonthsAreDistinctive();
    hide Distinctive;
  }

  lemma DaysAreDistinctive()
    ensures Distinctive(DAYS)
  {
  }

  lemma MonthsAreDistinctive()
    ensures Distinctive(MONTHS)
  {
    forall i | 0 <= i < |MONTHS|
      ensures |MONTHS[i]| == 3 && forall j :: 0 <= j < 3 ==> IsLetter(MONTHS[i][j])
      ensures forall k :: i < k < |MONTHS| ==> MONTHS[i][0] != MONTHS[k][0] || MONTHS[i][1] != MONTHS[k][1]
                                               || MONTHS[i][2] != MONTHS[k][2]
    {
    }
  }

  /** Two names with a character between them, a range or a list: the same name a second time stays as it is. */
  lemma TwoNames(names: seq<string>, a: nat, c: char, b: nat)
    requires Distinctive(names) && a < |names| && b < |names| && !IsLetter(c)
    ensures Ordinals(names[a] + [c] + names[b], names, 0) ==
            Decimal(a) + [c] + if a == b then names[b] else Decimal(b)
  {
    hide Ordinals, Decimal, Distinctive;
    var p := [Name(a), Char(c), Name(b)];
    Three(p, names, 0);
    Three(p, names, |names|);
    NamesAreNumbers(p, names, 0);
  }

  lemma Three(p: seq<Piece>, names: seq<string>, i: nat)
    requires Distinctive(names) && Apart(p, names) && |p| == 3
    ensures Text(p, names, i) == LastText(p[..1], names, i) + LastText(p[..2], names, i) + LastText(p, names, i)
    ensures p[..1] == [p[0]] && p[..2] == [p[0], p[1]]
  {
    assert p[..2][..1] == p[..1] && p[..1][..0] == [];
    hide LastText;
    assert Text(p[..1], names, i) == LastText(p[..1], names, i);
  }

  /** A range of days, */
  lemma MondayToFriday()
    ensures Ordinals("MON-FRI", DAYS, 0) == "1-5"
  {
    hide Ordinals;
    TablesAreDistinctive();
    TwoNames(DAYS, 1, '-', 5);
    assert DAYS[1] + ['-'] + DAYS[5] == "MON-FRI";
  }

  /** and a day that is named twice. */
  lemma MondayTwice()
    ensures Ordinals("MON,MON", DAYS, 0) == "1,MON"
  {
    hide Ordinals;
    TablesAreDistinctive();
    TwoNames(DAYS, 1, ',', 1);
    assert DAYS[1] + [','] + DAYS[1] == "MON,MON";
  }
}
