/** `pkg/sqlutil/sqlinclause.go`: printing IN and NOT IN clauses, and the parser that
    reads them back. */
module SqlInClause {
  import opened Common
  import opened SqlUtil

  // ---------- the printers ----------

  datatype Condition = In | NotIn

  function ConditionText(c: Condition): string { if c == In then "IN" else "NOT IN" }

  /** Every value printed, in order. */
  function Printed<T>(show: T -> string, values: seq<T>): (items: seq<string>)
    ensures |items| == |values| && forall k :: 0 <= k < |values| ==> items[k] == show(values[k])
  {
    seq(|values|, k requires 0 <= k < |values| => show(values[k]))
  }

  /** `composeInClause` */
  function Compose(c: Condition, field: string, items: seq<string>): string {
    if |items| == 0 then "" else QuoteID(field) + (" " + ConditionText(c) + " (") + Join(items, ",") + ")"
  }

  function StringClause(c: Condition, field: string, values: seq<string>): string {
    Compose(c, field, Printed(QuoteValue, values))
  }

  function IntClause(c: Condition, field: string, values: seq<int>): string {
    Compose(c, field, Printed(Itoa, values))
  }

  /** Decimal digits of a number, most significant first. */
  function Digits(n: nat): string {
    if n < 10 then [Digit(n)] else Digits(n / 10) + [Digit(n % 10)]
  }

  function Digit(d: nat): char
    requires d < 10
  {
    '0' + d as char
  }

  /** `strconv.Itoa`; on a non-negative number also `strconv.FormatUint` to base ten. */
  function Itoa(n: int): string { if n < 0 then "-" + Digits(-n) else Digits(n) }

  method FormatStrings(values: seq<string>) returns (items: seq<string>)
    ensures items == Printed(QuoteValue, values)
  {
    ghost var printed := Printed(QuoteValue, values);
    var a := new string[|values|];
    for k := 0 to |values|
      invariant forall j :: 0 <= j < k ==> a[j] == printed[j]
    {
      a[k] := DefaultQuoteValue(values[k]);
    }
    items := a[..];
    assert items == printed;
  }

  /** `formatInts`, and on non-negative values `formatUints`. */
  method FormatInts(values: seq<int>) returns (items: seq<string>)
    ensures items == Printed(Itoa, values)
  {
    ghost var printed := Printed(Itoa, values);
    var a := new string[|values|];
    for k := 0 to |values|
      invariant forall j :: 0 <= j < k ==> a[j] == printed[j]
    {
      a[k] := Itoa(values[k]);
    }
    items := a[..];
    assert items == printed;
  }

  // ---------- the parsers ----------

  type Parser<T> = string -> Option<Scanned<T>>

  /** One or more items separated by commas. */
  function ParseList<T>(item: Parser<T>, text: string): Option<Scanned<seq<T>>>
    decreases |text|
  {
    match item(text)
    case None => None
    case Some(first) =>
      if StartsWith(first.rest, ',') && |first.rest| <= |text| then
        match ParseList(item, first.rest[1..])
        case None => None
        case Some(more) => Some(Scanned([first.value] + more.value, more.rest))
      else Some(Scanned([first.value], first.rest))
  }

  datatype Clause<T> = Clause(condition: Condition, field: string, values: seq<T>)

  /** The condition with the spaces and the parenthesis around it. */
  function ReadCondition(text: string): Option<Scanned<Condition>> {
    if " IN (" <= text then Some(Scanned(In, text[5..]))
    else if " NOT IN (" <= text then Some(Scanned(NotIn, text[9..]))
    else None
  }

  /** A whole clause: field, condition and parenthesised list, and nothing after it. */
  function ParseClause<T>(item: Parser<T>, text: string): Option<Clause<T>> {
    match ScanID(text, true)
    case None => None
    case Some(field) =>
      match ReadCondition(field.rest)
      case None => None
      case Some(condition) =>
        match ParseList(item, condition.rest)
        case None => None
        case Some(list) => if list.rest == ")" then Some(Clause(condition.value, field.value, list.value)) else None
  }

  function IsDigit(c: char): bool { '0' <= c <= '9' }

  function DigitPrefix(text: string): nat
    ensures DigitPrefix(text) <= |text|
  {
    if text != "" && IsDigit(text[0]) then 1 + DigitPrefix(text[1..]) else 0
  }

  function Number(digits: string): int {
    if digits == "" then 0 else 10 * Number(digits[..|digits| - 1]) + (digits[|digits| - 1] as int - '0' as int)
  }

  function ParseInt(text: string): Option<Scanned<int>> {
    var negative := StartsWith(text, '-');
    var body := if negative then text[1..] else text;
    var n := DigitPrefix(body);
    if n == 0 then None
    else Some(Scanned(if negative then -Number(body[..n]) else Number(body[..n]), body[n..]))
  }

  // ---------- lists ----------

  predicate ListEnd(rest: string) { StartsWith(rest, ',') || StartsWith(rest, ')') }

  /** Each of the values is read back wherever a comma or a parenthesis follows it. */
  ghost predicate ReadsBack<T(!new)>(show: T -> string, item: Parser<T>, values: seq<T>) {
    forall v, rest :: v in values && ListEnd(rest) ==> item(show(v) + rest) == Some(Scanned(v, rest))
  }

  lemma {:induction false} ListReadBack<T(!new)>(show: T -> string, item: Parser<T>, values: seq<T>, rest: string)
    requires |values| > 0 && ReadsBack(show, item, values) && StartsWith(rest, ')')
    ensures ParseList(item, Join(Printed(show, values), ",") + rest) == Some(Scanned(values, rest))
    decreases |values|
  {
    var items := Printed(show, values);
    assert values[0] in values;
    if |values| == 1 {
      assert item(show(values[0]) + rest) == Some(Scanned(values[0], rest));
      assert [values[0]] == values;
    } else {
      assert items[1..] == Printed(show, values[1..]);
      var tail := "," + (Join(items[1..], ",") + rest);
      Regroup(items[0], ",", Join(items[1..], ","), rest);
      assert item(show(values[0]) + tail) == Some(Scanned(values[0], tail));
      ListReadBack(show, item, values[1..], rest);
      assert [values[0]] + values[1..] == values;
    }
  }

  lemma ConditionReadBack(c: Condition, list: string)
    ensures ReadCondition(" " + ConditionText(c) + " (" + list) == Some(Scanned(c, list))
    ensures StartsWith(" " + ConditionText(c) + " (" + list, ' ')
  {
    var text := " " + ConditionText(c) + " (" + list;
    if c == In {
      assert text[..5] == " IN (" && text[5..] == list;
    } else {
      assert text[1] == 'N' && " IN ("[1] == 'I';
      assert text[..9] == " NOT IN (" && text[9..] == list;
    }
  }

  lemma ComposeRegroups(c: Condition, field: string, items: seq<string>)
    requires |items| > 0
    ensures Compose(c, field, items) == QuoteID(field) + (" " + ConditionText(c) + " (" + (Join(items, ",") + ")"))
  {
    Regroup(QuoteID(field), " " + ConditionText(c) + " (", Join(items, ","), ")");
  }

  /** A clause whose field and items are read back is read back as a whole. */
  lemma ClauseReadBack<T(!new)>(show: T -> string, item: Parser<T>, c: Condition, field: string, values: seq<T>)
    requires field != "" && |values| > 0 && ReadsBack(show, item, values)
    ensures ParseClause(item, Compose(c, field, Printed(show, values))) == Some(Clause(c, field, values))
  {
    var list := Join(Printed(show, values), ",") + ")";
    ComposeRegroups(c, field, Printed(show, values));
    ConditionReadBack(c, list);
    IDReadBack(field, " " + ConditionText(c) + " (" + list);
    ListReadBack(show, item, values, ")");
  }

  /** An empty list prints no clause at all, whatever the field; any other list prints one. */
  lemma NoClauseExactlyWhen(c: Condition, field: string, strings: seq<string>, ints: seq<int>)
    ensures StringClause(c, field, strings) == "" <==> strings == []
    ensures IntClause(c, field, ints) == "" <==> ints == []
  {
  }

  // ---------- strings ----------

  /** A list with an empty string prints nothing for it, and does not parse at all. */
  lemma {:induction false} EmptyStringLost(values: seq<string>)
    requires "" in values
    ensures ParseList(ScanValue, Join(Printed(QuoteValue, values), ",") + ")") == None
    decreases |values|
  {
    var items := Printed(QuoteValue, values);
    var text := Join(items, ",") + ")";
    if |values| > 1 {
      Regroup(items[0], ",", Join(items[1..], ","), ")");
    }
    if values[0] == "" {
      assert StartsWith(text, ',') || StartsWith(text, ')');
    } else {
      assert items[1..] == Printed(QuoteValue, values[1..]);
      var tail := "," + (Join(items[1..], ",") + ")");
      ValueReadBack(values[0], tail);
      EmptyStringLost(values[1..]);
    }
  }

  /** Exactly when a string clause parses back to the field, the condition and the list it
      was made from: the field is not empty, the list is not empty, and no value is. */
  lemma StringClauseReadBackExactlyWhen(c: Condition, field: string, values: seq<string>)
    ensures ParseClause(ScanValue, StringClause(c, field, values)) == Some(Clause(c, field, values)) <==>
            field != "" && values != [] && "" !in values
  {
    var list := Join(Printed(QuoteValue, values), ",") + ")";
    if values != [] {
      ComposeRegroups(c, field, Printed(QuoteValue, values));
      ConditionReadBack(c, list);
      if field != "" && "" in values {
        EmptyStringLost(values);
        IDReadBack(field, " " + ConditionText(c) + " (" + list);
      } else if field != "" {
        forall v, rest | v in values && ListEnd(rest)
          ensures ScanValue(QuoteValue(v) + rest) == Some(Scanned(v, rest))
        {
          ValueReadBack(v, rest);
        }
        ClauseReadBack(QuoteValue, ScanValue, c, field, values);
      } else {
        assert StartsWith(StringClause(c, field, values), ' ');
      }
    }
  }

  // ---------- integers ----------

  lemma {:induction false} DigitsAreDigits(n: nat)
    ensures |Digits(n)| > 0 && forall k :: 0 <= k < |Digits(n)| ==> IsDigit(Digits(n)[k])
  {
    if n >= 10 {
      DigitsAreDigits(n / 10);
    }
  }

  lemma {:induction false} NumberOfDigits(n: nat)
    ensures Number(Digits(n)) == n
  {
    if n >= 10 {
      NumberOfDigits(n / 10);
      assert Digits(n)[..|Digits(n)| - 1] == Digits(n / 10);
    } else {
      assert Digits(n)[..0] == "";
    }
  }

  lemma {:induction false} PrefixOf(digits: string, rest: string)
    requires forall k :: 0 <= k < |digits| ==> IsDigit(digits[k])
    requires rest == "" || !IsDigit(rest[0])
    ensures DigitPrefix(digits + rest) == |digits|
  {
    if digits == "" {
      assert digits + rest == rest;
    } else {
      assert (digits + rest)[1..] == digits[1..] + rest;
      PrefixOf(digits[1..], rest);
    }
  }

  /** Only zero begins with a zero, and only a negative number with a minus. */
  lemma {:induction false} CanonicalDigits(n: nat)
    ensures Digits(n)[0] == '0' <==> n == 0
    ensures Digits(n) == "0" <==> n == 0
  {
    if n >= 10 {
      CanonicalDigits(n / 10);
      DigitsAreDigits(n / 10);
    }
  }

  /** An integer, negative or not, is read back wherever no digit follows it. */
  lemma IntReadBack(n: int, rest: string)
    requires rest == "" || !IsDigit(rest[0])
    ensures ParseInt(Itoa(n) + rest) == Some(Scanned(n, rest))
  {
    var digits := Digits(if n < 0 then -n else n);
    DigitsAreDigits(if n < 0 then -n else n);
    NumberOfDigits(if n < 0 then -n else n);
    PrefixOf(digits, rest);
    assert (digits + rest)[..|digits|] == digits && (digits + rest)[|digits|..] == rest;
    if n < 0 {
      assert ("-" + digits + rest)[1..] == digits + rest;
    } else {
      assert IsDigit((digits + rest)[0]);
    }
  }

  /** An integer clause parses back exactly when neither field nor list is empty. */
  lemma IntClauseReadBackExactlyWhen(c: Condition, field: string, values: seq<int>)
    ensures ParseClause(ParseInt, IntClause(c, field, values)) == Some(Clause(c, field, values)) <==>
            field != "" && values != []
  {
    if values != [] {
      if field != "" {
        forall v, rest | v in values && ListEnd(rest)
          ensures ParseInt(Itoa(v) + rest) == Some(Scanned(v, rest))
        {
          IntReadBack(v, rest);
        }
        ClauseReadBack(Itoa, ParseInt, c, field, values);
      } else {
        ComposeRegroups(c, field, Printed(Itoa, values));
        ConditionReadBack(c, Join(Printed(Itoa, values), ",") + ")");
        assert StartsWith(IntClause(c, field, values), ' ');
      }
    }
  }
}
