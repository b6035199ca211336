/**
  handleFormatNumber of the text-box component: group the integer part of a
  number's text with a comma before every complete group of three digits,
  counted from the right, keeping a leading minus sign and the first
  fractional part.
*/
module NumberFormat {

  // ---------------------------------------------------------------------
  // String.prototype.split with a one-character separator, and its inverse

  /** `s.split(sep)`: the pieces between separators, at least one, possibly empty. */
  function Split(s: string, sep: char): (parts: seq<string>)
    ensures |parts| >= 1
    ensures forall i :: 0 <= i < |parts| ==> sep !in parts[i]
    decreases |s|
  {
    if |s| == 0 then [""]
    else
      var rest := Split(s[1..], sep);
      if s[0] == sep then [""] + rest
      else [[s[0]] + rest[0]] + rest[1..]
  }

  /** `parts.join(sep)`. */
  function Join(parts: seq<string>, sep: char): string
    decreases |parts|
  {
    if |parts| == 0 then ""
    else if |parts| == 1 then parts[0]
    else parts[0] + [sep] + Join(parts[1..], sep)
  }

  /** The pieces laid end to end, without separators. */
  function Concat(parts: seq<string>): string
    decreases |parts|
  {
    if |parts| == 0 then "" else parts[0] + Concat(parts[1..])
  }

  /** `s` with every occurrence of `c` removed. */
  function RemoveAll(s: string, c: char): string
    decreases |s|
  {
    if |s| == 0 then ""
    else (if s[0] == c then "" else [s[0]]) + RemoveAll(s[1..], c)
  }

  /** Joining the pieces with the separator gives the text back. */
  lemma {:induction false} JoinSplit(s: string, sep: char)
    ensures Join(Split(s, sep), sep) == s
    decreases |s|
  {
    if |s| > 0 {
      JoinSplit(s[1..], sep);
      var rest := Split(s[1..], sep);
      if s[0] == sep {
        assert ([""] + rest)[1..] == rest;
      } else {
        var parts := [[s[0]] + rest[0]] + rest[1..];
        assert parts[1..] == rest[1..];
      }
    }
  }

  /** A text without the separator is a single piece. */
  lemma {:induction false} SplitWithoutSeparator(s: string, sep: char)
    requires sep !in s
    ensures Split(s, sep) == [s]
    decreases |s|
  {
    if |s| > 0 {
      assert sep !in s[1..];
      SplitWithoutSeparator(s[1..], sep);
      assert [s[0]] + s[1..] == s;
    }
  }

  /** Splitting `a + sep + b`, where `b` has no separator, adds `b` as one last piece. */
  lemma {:induction false} SplitAppend(a: string, sep: char, b: string)
    requires sep !in b
    ensures Split(a + [sep] + b, sep) == Split(a, sep) + [b]
    decreases |a|
  {
    var s := a + [sep] + b;
    if |a| == 0 {
      assert s[1..] == b;
      SplitWithoutSeparator(b, sep);
    } else {
      assert s[1..] == a[1..] + [sep] + b;
      SplitAppend(a[1..], sep, b);
    }
  }

  /** Splitting `a + sep + t`, where `a` has no separator, puts `a` as the first piece. */
  lemma {:induction false} SplitPrepend(a: string, sep: char, t: string)
    requires sep !in a
    ensures Split(a + [sep] + t, sep) == [a] + Split(t, sep)
    decreases |a|
  {
    var s := a + [sep] + t;
    if |a| == 0 {
      assert s[1..] == t;
    } else {
      assert s[1..] == a[1..] + [sep] + t;
      assert sep !in a[1..];
      SplitPrepend(a[1..], sep, t);
      assert [a[0]] + a[1..] == a;
    }
  }

  /** Joining pieces that hold no separator and splitting again gives the pieces back. */
  lemma {:induction false} SplitJoin(parts: seq<string>, sep: char)
    requires |parts| >= 1
    requires forall i :: 0 <= i < |parts| ==> sep !in parts[i]
    ensures Split(Join(parts, sep), sep) == parts
    decreases |parts|
  {
    if |parts| == 1 {
      SplitWithoutSeparator(parts[0], sep);
    } else {
      SplitPrepend(parts[0], sep, Join(parts[1..], sep));
      SplitJoin(parts[1..], sep);
      assert [parts[0]] + parts[1..] == parts;
    }
  }

  /** Removing a character is laying the pieces split at it end to end. */
  lemma {:induction false} RemoveAllIsConcatOfSplit(s: string, c: char)
    ensures RemoveAll(s, c) == Concat(Split(s, c))
    decreases |s|
  {
    if |s| > 0 {
      RemoveAllIsConcatOfSplit(s[1..], c);
      var rest := Split(s[1..], c);
      if s[0] == c {
        assert ([""] + rest)[1..] == rest;
      } else {
        var parts := [[s[0]] + rest[0]] + rest[1..];
        assert parts[1..] == rest[1..];
      }
    }
  }

  lemma {:induction false} ConcatAppend(parts: seq<string>, last: string)
    ensures Concat(parts + [last]) == Concat(parts) + last
    decreases |parts|
  {
    if |parts| > 0 {
      assert (parts + [last])[1..] == parts[1..] + [last];
      ConcatAppend(parts[1..], last);
    }
  }

  lemma {:induction false} RemoveAllAppend(a: string, b: string, c: char)
    ensures RemoveAll(a + b, c) == RemoveAll(a, c) + RemoveAll(b, c)
    decreases |a|
  {
    if |a| == 0 {
      assert a + b == b;
    } else {
      assert (a + b)[1..] == a[1..] + b;
      RemoveAllAppend(a[1..], b, c);
    }
  }

  lemma {:induction false} RemoveAllAbsent(s: string, c: char)
    requires c !in s
    ensures RemoveAll(s, c) == s
    decreases |s|
  {
    if |s| > 0 {
      assert c !in s[1..];
      RemoveAllAbsent(s[1..], c);
    }
  }

  /** A character absent from a text is absent from every piece of it. */
  lemma {:induction false} SplitKeepsAbsent(s: string, sep: char, c: char)
    requires c !in s
    ensures forall i :: 0 <= i < |Split(s, sep)| ==> c !in Split(s, sep)[i]
    decreases |s|
  {
    if |s| > 0 {
      assert c !in s[1..];
      SplitKeepsAbsent(s[1..], sep, c);
      var rest := Split(s[1..], sep);
      if s[0] != sep {
        assert c !in [s[0]] + rest[0];
      }
    }
  }

  // ---------------------------------------------------------------------
  // The formatter

  /**
    The loop of handleFormatNumber: while more than three characters remain,
    move the last three behind a comma; then whatever remains leads.
  */
  function GroupDigits(num: string): string
    decreases |num|
  {
    if |num| > 3 then GroupDigits(num[..|num| - 3]) + "," + num[|num| - 3..] else num
  }

  /** The minus sign kept in front of the result. */
  function SignOf(integerPart: string): string {
    if |integerPart| > 0 && integerPart[0] == '-' then "-" else ""
  }

  /** The integer digits without their sign. */
  function UnsignedOf(integerPart: string): string {
    if SignOf(integerPart) != "" then integerPart[1..] else integerPart
  }

  /** `.` and the second dot-separated piece when that piece is non-empty, else nothing. */
  function FractionOf(list: seq<string>): string {
    if |list| > 1 && list[1] != "" then "." + list[1] else ""
  }

  /** The sign followed by the grouped integer digits. */
  function FormattedInteger(value: string): string {
    var list := Split(value, '.');
    SignOf(list[0]) + GroupDigits(UnsignedOf(list[0]))
  }

  /** handleFormatNumber on the text of a value. */
  function FormatNumber(value: string): string {
    FormattedInteger(value) + FractionOf(Split(value, '.'))
  }

  /** handleFormatNumber step for step, with its loop over string slices. */
  method FormatNumberLoop(value: string) returns (formatted: string)
    ensures formatted == FormatNumber(value)
  {
    var list := Split(value, '.');
    var prefix := SignOf(list[0]);
    var num := UnsignedOf(list[0]);
    var result := "";
    while |num| > 3
      invariant GroupDigits(num) + result == GroupDigits(UnsignedOf(list[0]))
      decreases |num|
    {
      result := "," + num[|num| - 3..] + result;
      num := num[..|num| - 3];
    }
    if num != "" {
      result := num + result;
    }
    formatted := prefix + result + FractionOf(list);
  }

  // ---------------------------------------------------------------------
  // Properties of the grouping

  /**
    The groups between the commas are the original digits in order; the
    leading group has one to three characters and every later one exactly three.
  */
  lemma {:induction false} GroupDigitsStructure(num: string)
    requires ',' !in num
    ensures var groups := Split(GroupDigits(num), ',');
      && Concat(groups) == num
      && (|num| > 0 ==> 1 <= |groups[0]| <= 3)
      && (forall i :: 1 <= i < |groups| ==> |groups[i]| == 3)
    decreases |num|
  {
    if |num| <= 3 {
      SplitWithoutSeparator(num, ',');
      assert Concat([num]) == num + Concat([]);
    } else {
      var head := num[..|num| - 3];
      var tail := num[|num| - 3..];
      assert ',' !in head && ',' !in tail;
      GroupDigitsStructure(head);
      SplitAppend(GroupDigits(head), ',', tail);
      ConcatAppend(Split(GroupDigits(head), ','), tail);
      assert head + tail == num;
    }
  }

  /** Removing the commas gives the digits back. */
  lemma GroupDigitsRemoveCommas(num: string)
    requires ',' !in num
    ensures RemoveAll(GroupDigits(num), ',') == num
  {
    RemoveAllIsConcatOfSplit(GroupDigits(num), ',');
    GroupDigitsStructure(num);
  }

  /**
    An integer part of at most three digits, signed or not and with or
    without a fraction after it, is left as it is: no comma is added.
  */
  lemma ShortNumberUnchanged(value: string)
    requires |UnsignedOf(Split(value, '.')[0])| <= 3
    ensures FormattedInteger(value) == Split(value, '.')[0]
    ensures '.' !in value ==> FormatNumber(value) == value
    ensures ',' !in value ==> ',' !in FormatNumber(value)
  {
    var list := Split(value, '.');
    ShortIntegerKept(list[0]);
    if '.' !in value {
      SplitWithoutSeparator(value, '.');
    }
    if ',' !in value {
      SplitKeepsAbsent(value, '.', ',');
      FractionOmits(list, ',');
      AbsentFromAppend(list[0], FractionOf(list), ',');
    }
  }

  lemma ShortIntegerKept(head: string)
    requires |UnsignedOf(head)| <= 3
    ensures SignOf(head) + GroupDigits(UnsignedOf(head)) == head
  {
    if SignOf(head) != "" {
      assert head == [head[0]] + head[1..];
    }
  }

  lemma FractionOmits(list: seq<string>, c: char)
    requires c != '.' && (|list| > 1 ==> c !in list[1])
    ensures c !in FractionOf(list)
  {
    if |list| > 1 && list[1] != "" {
      AbsentFromAppend(".", list[1], c);
    }
  }

  lemma AbsentFromAppend(a: string, b: string, c: char)
    requires c !in a && c !in b
    ensures c !in a + b
  {
  }

  /** Only the first `-` is the sign: a second one is grouped like a digit. */
  lemma SecondMinusIsGrouped()
    ensures FormatNumber("--1234") == "--1,234"
    ensures FormatNumber("--12") == "--12"
  {
    WholeNumber("--1234");
    assert UnsignedOf("--1234") == "-1234";
    assert GroupDigits("-1234") == "-1" + "," + "234";
    WholeNumber("--12");
    assert UnsignedOf("--12") == "-12";
  }

  /** A text without a dot is formatted as a whole: sign, then grouped digits. */
  lemma WholeNumber(value: string)
    requires '.' !in value
    ensures FormatNumber(value) == SignOf(value) + GroupDigits(UnsignedOf(value))
  {
    SplitWithoutSeparator(value, '.');
  }

  /** Grouping adds only commas: any other absent character stays absent. */
  lemma {:induction false} GroupDigitsOmits(num: string, c: char)
    requires c != ',' && c !in num
    ensures c !in GroupDigits(num)
    decreases |num|
  {
    if |num| > 3 {
      var head := num[..|num| - 3];
      assert c !in head && c !in num[|num| - 3..];
      GroupDigitsOmits(head, c);
    }
  }

  /** A non-empty number keeps its first character in front. */
  lemma {:induction false} GroupDigitsFirst(num: string)
    requires |num| > 0
    ensures |GroupDigits(num)| > 0 && GroupDigits(num)[0] == num[0]
    decreases |num|
  {
    if |num| > 3 {
      GroupDigitsFirst(num[..|num| - 3]);
    }
  }

  // ---------------------------------------------------------------------
  // Properties of the formatter

  /** A leading minus sign stays on the first dot-separated piece. */
  lemma SplitSigned(x: string)
    ensures Split("-" + x, '.') == [['-'] + Split(x, '.')[0]] + Split(x, '.')[1..]
  {
    assert ("-" + x)[1..] == x;
  }

  /** An unsigned value's first piece is unsigned and starts like the value. */
  lemma UnsignedHead(x: string)
    requires |x| == 0 || x[0] != '-'
    ensures var head := Split(x, '.')[0];
      && SignOf(head) == ""
      && (|head| > 0 ==> head[0] == x[0])
  {
    if |x| > 0 && x[0] != '.' {
      assert Split(x, '.')[0] == [x[0]] + Split(x[1..], '.')[0];
    }
  }

  /**
    The result starts with `-` exactly when the integer part does, and a
    minus sign in front of an unsigned value is carried through unchanged.
  */
  lemma FormatNumberKeepsSign(x: string)
    requires |x| == 0 || x[0] != '-'
    ensures FormatNumber("-" + x) == "-" + FormatNumber(x)
    ensures var r := FormatNumber(x); !(|r| > 0 && r[0] == '-')
  {
    var list := Split(x, '.');
    var signed := Split("-" + x, '.');
    SplitSigned(x);
    UnsignedHead(x);
    assert SignOf(signed[0]) == "-" && UnsignedOf(signed[0]) == list[0];
    assert FractionOf(signed) == FractionOf(list);
    assert FormattedInteger("-" + x) == "-" + FormattedInteger(x);
    var num := UnsignedOf(list[0]);
    assert FormattedInteger(x) == GroupDigits(num);
    if |num| > 0 {
      GroupDigitsFirst(num);
    }
  }

  /** Two separator-free pieces joined by the separator split back into the two. */
  lemma SplitPair(a: string, sep: char, b: string)
    requires sep !in a && sep !in b
    ensures Split(a + [sep] + b, sep) == [a, b]
  {
    SplitAppend(a, sep, b);
    SplitWithoutSeparator(a, sep);
  }

  /** The formatted integer part holds no dot. */
  lemma FormattedIntegerHasNoDot(value: string)
    ensures '.' !in FormattedInteger(value)
  {
    var head := Split(value, '.')[0];
    assert '.' !in head;
    var num := UnsignedOf(head);
    assert '.' !in num;
    GroupDigitsOmits(num, '.');
  }

  /**
    The dots of the result: exactly one, followed by the second piece of the
    input, when that piece is non-empty; none otherwise. Later pieces are dropped.
  */
  lemma FormatNumberFraction(value: string)
    ensures var list := Split(value, '.'); var r := FormatNumber(value);
      && ('.' in r <==> |list| > 1 && list[1] != "")
      && (|list| > 1 && list[1] != "" ==> Split(r, '.') == [FormattedInteger(value), list[1]])
      && (!(|list| > 1 && list[1] != "") ==> Split(r, '.') == [FormattedInteger(value)])
  {
    var list := Split(value, '.');
    var integer := FormattedInteger(value);
    FormattedIntegerHasNoDot(value);
    if |list| > 1 && list[1] != "" {
      assert '.' !in list[1];
      assert FormatNumber(value) == integer + ['.'] + list[1];
      SplitPair(integer, '.', list[1]);
      assert (integer + ['.'] + list[1])[|integer|] == '.';
    } else {
      assert FormatNumber(value) == integer;
      SplitWithoutSeparator(integer, '.');
    }
  }

  /**
    Round trip: removing the commas from the result of a comma-free input
    gives back the input up to its second dot, without a trailing dot.
  */
  lemma FormatNumberRemoveCommas(value: string)
    requires ',' !in value
    ensures var list := Split(value, '.');
      RemoveAll(FormatNumber(value), ',') == list[0] + FractionOf(list)
  {
    var list := Split(value, '.');
    SplitKeepsAbsent(value, '.', ',');
    var head := list[0];
    var sign := SignOf(head);
    var num := UnsignedOf(head);
    assert ',' !in num;
    var fraction := FractionOf(list);
    if |list| > 1 {
      assert ',' !in list[1];
    }
    assert ',' !in fraction;
    GroupDigitsRemoveCommas(num);
    RemoveAllAppend(sign, GroupDigits(num), ',');
    RemoveAllAppend(sign + GroupDigits(num), fraction, ',');
    RemoveAllAbsent(sign, ',');
    RemoveAllAbsent(fraction, ',');
    assert sign + num == head;
  }
}
