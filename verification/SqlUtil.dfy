/** `pkg/sqlutil/sqlutil.go`: printing MySQL string literals and identifiers, and the
    scanners that read them back. A `char` stands for a byte. */
module SqlUtil {
  import opened Common

  // ---------- the printers ----------

  predicate Special(c: char) { c in {'\0', '\n', '\r', '\\', '\U{1A}'} }

  function EscapeChar(c: char): string {
    match c
    case '\0' => "\\0"
    case '\n' => "\\n"
    case '\r' => "\\r"
    case '\\' => "\\\\"
    case '\U{1A}' => "\\Z"
    case _ => [c]
  }

  function Escape(s: string): string {
    if s == "" then "" else EscapeChar(s[0]) + Escape(s[1..])
  }

  /** `strings.ReplaceAll(s, q, qq)` */
  function Doubled(s: string, q: char): string {
    if s == "" then "" else (if s[0] == q then [q, q] else [s[0]]) + Doubled(s[1..], q)
  }

  function Quoted(s: string, q: char): string { [q] + Doubled(Escape(s), q) + [q] }

  function QuoteValue(s: string): string { if s == "" then "" else Quoted(s, '\'') }

  function QuotedParts(parts: seq<string>): (quoted: seq<string>)
    ensures |quoted| == |parts| && forall k :: 0 <= k < |parts| ==> quoted[k] == Quoted(parts[k], '`')
  {
    seq(|parts|, k requires 0 <= k < |parts| => Quoted(parts[k], '`'))
  }

  function QuoteID(s: string): string {
    if s == "" then "" else Join(QuotedParts(Split(s, '.')), ".")
  }

  lemma {:induction false} EscapeSnoc(s: string, c: char)
    ensures Escape(s + [c]) == Escape(s) + EscapeChar(c)
  {
    if s == "" {
      assert [c][1..] == "";
    } else {
      assert (s + [c])[1..] == s[1..] + [c];
      EscapeSnoc(s[1..], c);
    }
  }

  /** The loop that fills `dest`, byte by byte, within its preallocated capacity. */
  method EscapeInto(s: string) returns (dest: string)
    ensures dest == Escape(s) && |dest| <= 2 * |s|
  {
    dest := "";
    for i := 0 to |s|
      invariant dest == Escape(s[..i]) && |dest| <= 2 * i
    {
      EscapeSnoc(s[..i], s[i]);
      assert s[..i + 1] == s[..i] + [s[i]];
      match s[i] {
        case '\0' => dest := dest + ['\\', '0'];
        case '\n' => dest := dest + ['\\', 'n'];
        case '\r' => dest := dest + ['\\', 'r'];
        case '\\' => dest := dest + ['\\', '\\'];
        case '\U{1A}' => dest := dest + ['\\', 'Z'];
        case _ => dest := dest + [s[i]];
      }
    }
    assert s[..|s|] == s;
  }

  method DefaultQuoteValue(s: string) returns (r: string)
    ensures r == QuoteValue(s)
  {
    if s == "" {
      return s;
    }
    var escaped := EscapeInto(s);
    r := "'" + Doubled(escaped, '\'') + "'";
  }

  /** Each dotted part is overwritten in place by its quoted form. */
  method QuoteParts(parts: array<string>)
    modifies parts
    ensures parts[..] == QuotedParts(old(parts[..]))
  {
    ghost var quoted := QuotedParts(parts[..]);
    for k := 0 to parts.Length
      invariant forall j :: 0 <= j < k ==> parts[j] == quoted[j]
      invariant forall j :: k <= j < parts.Length ==> parts[j] == old(parts[j])
    {
      var escaped := EscapeInto(parts[k]);
      parts[k] := "`" + Doubled(escaped, '`') + "`";
    }
    assert parts[..] == quoted;
  }

  method DefaultQuoteID(s: string) returns (r: string)
    ensures r == QuoteID(s)
  {
    if s == "" {
      return s;
    }
    var split := Split(s, '.');
    var parts := new string[|split|](k requires 0 <= k < |split| => split[k]);
    assert parts[..] == split;
    QuoteParts(parts);
    r := Join(parts[..], ".");
  }

  // ---------- the scanners ----------

  datatype Scanned<+T> = Scanned(value: T, rest: string)

  /** The character after a backslash (MySQL 8.0 Reference Manual, section 9.1.1). */
  function Unescaped(c: char): string {
    match c
    case '0' => "\0"
    case 'b' => "\U{08}"
    case 'n' => "\n"
    case 'r' => "\r"
    case 't' => "\t"
    case 'Z' => "\U{1A}"
    case '%' => "\\%"
    case '_' => "\\_"
    case _ => [c]
  }

  function Prepend(s: string, r: Option<Scanned<string>>): Option<Scanned<string>> {
    if r.Some? then Some(Scanned(s + r.value.value, r.value.rest)) else None
  }

  /** Reads up to the closing quote; a doubled quote is a quote, and where `backslash` is
      set so is a backslash escape undone. */
  function ScanBody(src: string, q: char, backslash: bool): Option<Scanned<string>>
    decreases |src|
  {
    if src == "" then None
    else if src[0] == q then
      if |src| > 1 && src[1] == q then Prepend([q], ScanBody(src[2..], q, backslash))
      else Some(Scanned("", src[1..]))
    else if backslash && src[0] == '\\' then
      if |src| == 1 then None else Prepend(Unescaped(src[1]), ScanBody(src[2..], q, backslash))
    else Prepend([src[0]], ScanBody(src[1..], q, backslash))
  }

  function ScanQuoted(src: string, q: char, backslash: bool): Option<Scanned<string>> {
    if src != "" && src[0] == q then ScanBody(src[1..], q, backslash) else None
  }

  /** A string literal. */
  function ScanValue(src: string): Option<Scanned<string>> { ScanQuoted(src, '\'', true) }

  /** Quoted identifiers with dots between them, one by one. */
  function ScanParts(src: string, backslash: bool): Option<Scanned<seq<string>>>
    decreases |src|
  {
    match ScanQuoted(src, '`', backslash)
    case None => None
    case Some(first) =>
      if StartsWith(first.rest, '.') && |first.rest| < |src| then
        match ScanParts(first.rest[1..], backslash)
        case None => None
        case Some(more) => Some(Scanned([first.value] + more.value, more.rest))
      else Some(Scanned([first.value], first.rest))
  }

  /** The same as one dotted name. */
  function ScanID(src: string, backslash: bool): Option<Scanned<string>> {
    match ScanParts(src, backslash)
    case None => None
    case Some(parts) => Some(Scanned(Join(parts.value, "."), parts.rest))
  }

  predicate StartsWith(s: string, c: char) { s != "" && s[0] == c }

  // ---------- reading undoes printing ----------

  lemma {:induction false} DoubledConcat(a: string, b: string, q: char)
    ensures Doubled(a + b, q) == Doubled(a, q) + Doubled(b, q)
  {
    if a == "" {
      assert a + b == b;
    } else {
      assert (a + b)[1..] == a[1..] + b;
      DoubledConcat(a[1..], b, q);
    }
  }

  lemma EscapeHasNoQuote(c: char, q: char)
    requires Special(c) && (q == '\'' || q == '`')
    ensures Doubled(EscapeChar(c), q) == EscapeChar(c) && |EscapeChar(c)| == 2
  {
    var e := EscapeChar(c);
    assert e[1..][1..] == "";
    assert Doubled(e[1..], q) == e[1..];
  }

  lemma EscapeReadBack(c: char, q: char, tail: string)
    requires Special(c) && (q == '\'' || q == '`')
    ensures ScanBody(EscapeChar(c) + tail, q, true) == Prepend([c], ScanBody(tail, q, true))
  {
    assert (EscapeChar(c) + tail)[2..] == tail;
  }

  lemma QuoteReadBack(q: char, tail: string)
    requires q == '\'' || q == '`'
    ensures ScanBody([q, q] + tail, q, true) == Prepend([q], ScanBody(tail, q, true))
  {
    assert ([q, q] + tail)[2..] == tail;
  }

  /** One printed character is read as that character, wherever it stands. */
  lemma CharReadBack(c: char, q: char, tail: string)
    requires q == '\'' || q == '`'
    ensures ScanBody(Doubled(EscapeChar(c), q) + tail, q, true) == Prepend([c], ScanBody(tail, q, true))
  {
    var e := EscapeChar(c);
    if Special(c) {
      EscapeHasNoQuote(c, q);
      EscapeReadBack(c, q, tail);
    } else {
      assert e[1..] == "";
      if c == q {
        assert Doubled(e, q) == [q, q];
        QuoteReadBack(q, tail);
      } else {
        assert Doubled(e, q) == [c] && ([c] + tail)[1..] == tail;
      }
    }
  }

  lemma BodyRegroups(head: string, body: string, q: char, rest: string)
    ensures (head + body) + [q] + rest == head + (body + [q] + rest)
  {
  }

  /** The closing quote ends the scan. */
  lemma ClosingReadBack(q: char, rest: string)
    requires (q == '\'' || q == '`') && !StartsWith(rest, q)
    ensures ScanBody("" + [q] + rest, q, true) == Some(Scanned("", rest))
  {
    assert "" + [q] + rest == [q] + rest && ([q] + rest)[1..] == rest;
  }

  lemma {:induction false} BodyReadBack(s: string, q: char, rest: string)
    requires (q == '\'' || q == '`') && !StartsWith(rest, q)
    ensures ScanBody(Doubled(Escape(s), q) + [q] + rest, q, true) == Some(Scanned(s, rest))
  {
    if s == "" {
      ClosingReadBack(q, rest);
    } else {
      var head, body := Doubled(EscapeChar(s[0]), q), Doubled(Escape(s[1..]), q);
      DoubledConcat(EscapeChar(s[0]), Escape(s[1..]), q);
      BodyRegroups(head, body, q, rest);
      CharReadBack(s[0], q, body + [q] + rest);
      BodyReadBack(s[1..], q, rest);
      assert [s[0]] + s[1..] == s;
    }
  }

  lemma AfterOpening(q: char, body: string, rest: string)
    ensures ([q] + body + [q] + rest)[0] == q && ([q] + body + [q] + rest)[1..] == body + [q] + rest
  {
  }

  /** A quoted part, followed by anything but another quote, is read back exactly. */
  lemma QuotedReadBack(s: string, q: char, rest: string)
    requires (q == '\'' || q == '`') && !StartsWith(rest, q)
    ensures ScanQuoted(Quoted(s, q) + rest, q, true) == Some(Scanned(s, rest))
  {
    BodyReadBack(s, q, rest);
    AfterOpening(q, Doubled(Escape(s), q), rest);
  }

  /** Only five bytes are escaped: any other text stands between the quotes as it is, but for
      doubled quotes. */
  lemma OnlyFiveEscaped(s: string, q: char)
    requires forall k :: 0 <= k < |s| ==> s[k] !in {'\0', '\n', '\r', '\\', '\U{1A}'}
    ensures Quoted(s, q) == [q] + Doubled(s, q) + [q]
    ensures q !in s ==> Quoted(s, q) == [q] + s + [q]
  {
    assert NoneSpecial(s);
    EscapeIsIdentity(s);
    if q !in s {
      NothingDoubled(s, q);
    }
  }

  lemma {:induction false} NothingDoubled(s: string, q: char)
    requires q !in s
    ensures Doubled(s, q) == s
  {
    if s != "" {
      NothingDoubled(s[1..], q);
      assert [s[0]] + s[1..] == s;
    }
  }

  /** Quoting a value is undone by reading it: the scan ends exactly at the final quote. */
  lemma ValueReadBack(s: string, rest: string)
    requires s != "" && !StartsWith(rest, '\'')
    ensures ScanValue(QuoteValue(s) + rest) == Some(Scanned(s, rest))
  {
    QuotedReadBack(s, '\'', rest);
  }

  /** What is printed for the part is read as `value`, unless a backtick follows it. */
  ghost predicate ReadAs(quoted: string, value: string, backslash: bool) {
    && quoted != ""
    && forall tail :: !StartsWith(tail, '`') ==>
         ScanQuoted(quoted + tail, '`', backslash) == Some(Scanned(value, tail))
  }

  /** One step of the scan over dotted parts. */
  lemma ScanStep(quoted: string, value: string, tail: string, backslash: bool, more: Scanned<seq<string>>)
    requires ReadAs(quoted, value, backslash) && ScanParts(tail, backslash) == Some(more)
    ensures ScanParts(quoted + ("." + tail), backslash) == Some(Scanned([value] + more.value, more.rest))
  {
    assert ("." + tail)[1..] == tail && !StartsWith("." + tail, '`');
  }

  /** Parts that are read one by one are read with dots between them, with nothing left over. */
  lemma {:induction false} JoinedParts(quoted: seq<string>, values: seq<string>, rest: string, backslash: bool)
    requires |quoted| == |values| > 0 && !StartsWith(rest, '`') && !StartsWith(rest, '.')
    requires forall k :: 0 <= k < |quoted| ==> ReadAs(quoted[k], values[k], backslash)
    ensures ScanParts(Join(quoted, ".") + rest, backslash) == Some(Scanned(values, rest))
  {
    assert ReadAs(quoted[0], values[0], backslash);
    if |quoted| == 1 {
      LastPart(quoted[0], values[0], rest, backslash);
      assert [values[0]] == values && Join(quoted, ".") == quoted[0];
    } else {
      var later := Join(quoted[1..], ".") + rest;
      JoinedParts(quoted[1..], values[1..], rest, backslash);
      Regroup(quoted[0], ".", Join(quoted[1..], "."), rest);
      ScanStep(quoted[0], values[0], later, backslash, Scanned(values[1..], rest));
      assert [values[0]] + values[1..] == values;
    }
  }

  lemma LastPart(quoted: string, value: string, rest: string, backslash: bool)
    requires ReadAs(quoted, value, backslash) && !StartsWith(rest, '`') && !StartsWith(rest, '.')
    ensures ScanParts(quoted + rest, backslash) == Some(Scanned([value], rest))
  {
  }

  lemma PartsReadBack(parts: seq<string>, rest: string)
    requires |parts| > 0 && !StartsWith(rest, '`') && !StartsWith(rest, '.')
    ensures ScanParts(Join(QuotedParts(parts), ".") + rest, true) == Some(Scanned(parts, rest))
  {
    forall k | 0 <= k < |parts| ensures ReadAs(QuotedParts(parts)[k], parts[k], true) {
      PartReadBack(parts[k]);
    }
    JoinedParts(QuotedParts(parts), parts, rest, true);
  }

  lemma PartReadBack(part: string)
    ensures ReadAs(Quoted(part, '`'), part, true)
  {
    forall tail | !StartsWith(tail, '`')
      ensures ScanQuoted(Quoted(part, '`') + tail, '`', true) == Some(Scanned(part, tail))
    {
      QuotedReadBack(part, '`', tail);
    }
  }

  /** Each dotted part of an identifier is quoted on its own: read part by part, what is
      printed for a name with dots is the list of its parts, and nothing follows them. */
  lemma IDPartsReadBack(parts: seq<string>, rest: string)
    requires |parts| > 0 && parts != [""] && forall k :: 0 <= k < |parts| ==> '.' !in parts[k]
    requires !StartsWith(rest, '`') && !StartsWith(rest, '.')
    ensures ScanParts(QuoteID(Join(parts, ".")) + rest, true) == Some(Scanned(parts, rest))
  {
    SplitJoin(parts, '.');
    SplitWhole("", '.');
    PartsReadBack(parts, rest);
  }

  /** Quoting a dotted identifier is undone by undoubling and unescaping its parts. */
  lemma IDReadBack(s: string, rest: string)
    requires s != "" && !StartsWith(rest, '`') && !StartsWith(rest, '.')
    ensures ScanID(QuoteID(s) + rest, true) == Some(Scanned(s, rest))
  {
    PartsReadBack(Split(s, '.'), rest);
    JoinSplit(s, '.');
  }

  /** So no two values, and no two identifiers, print the same. */
  lemma {:induction false} PrintersInjective(a: string, b: string)
    ensures QuoteValue(a) == QuoteValue(b) ==> a == b
    ensures QuoteID(a) == QuoteID(b) ==> a == b
  {
    if a != "" {
      ValueReadBack(a, "");
      IDReadBack(a, "");
      assert QuoteValue(a) + "" == QuoteValue(a) && QuoteID(a) + "" == QuoteID(a);
    }
    if b != "" {
      ValueReadBack(b, "");
      IDReadBack(b, "");
      assert QuoteValue(b) + "" == QuoteValue(b) && QuoteID(b) + "" == QuoteID(b);
    }
  }

  // ---------- what the escape leaves ----------

  /** No NUL, newline, carriage return or control-Z byte occurs in an escape, whatever the
      text, nor in what is printed. */
  lemma {:induction false} NoControlBytes(s: string, q: char)
    requires q == '\'' || q == '`'
    ensures forall c :: c in {'\0', '\n', '\r', '\U{1A}'} ==> c !in Escape(s) && c !in Doubled(Escape(s), q)
  {
    if s != "" {
      NoControlBytes(s[1..], q);
      EscapedByte(s[0], q);
      DoubledConcat(EscapeChar(s[0]), Escape(s[1..]), q);
    }
  }

  lemma EscapedByte(c: char, q: char)
    requires q == '\'' || q == '`'
    ensures forall d :: d in {'\0', '\n', '\r', '\U{1A}'} ==>
              d !in EscapeChar(c) && d !in Doubled(EscapeChar(c), q)
  {
    if Special(c) {
      EscapeHasNoQuote(c, q);
    } else {
      assert EscapeChar(c) == [c] && [c][1..] == "";
    }
  }

  // ---------- lengths ----------

  /** Every byte is doubled at most once: by the escape or by the quote, never by both. */
  lemma {:induction false} PrintedLength(s: string, q: char)
    requires q == '\'' || q == '`'
    ensures |s| <= |Escape(s)| <= |Doubled(Escape(s), q)| <= 2 * |s|
  {
    if s != "" {
      PrintedLength(s[1..], q);
      var e := EscapeChar(s[0]);
      DoubledConcat(e, Escape(s[1..]), q);
      if Special(s[0]) {
        EscapeHasNoQuote(s[0], q);
      } else {
        assert e[1..] == "";
      }
    }
  }

  lemma QuotedLength(s: string)
    ensures s != "" ==> |s| + 2 <= |QuoteValue(s)| <= 2 * |s| + 2
    ensures s == "" <==> QuoteValue(s) == ""
  {
    PrintedLength(s, '\'');
  }

  // ---------- what MySQL itself reads between backticks ----------

  predicate NoneSpecial(s: string) { forall k :: 0 <= k < |s| ==> !Special(s[k]) }

  lemma {:induction false} EscapeIsIdentity(s: string)
    ensures Escape(s) == s <==> NoneSpecial(s)
    ensures |Escape(s)| >= |s|
  {
    if s != "" {
      EscapeIsIdentity(s[1..]);
      assert s == [s[0]] + s[1..];
      if !Special(s[0]) {
        assert Escape(s)[1..] == Escape(s[1..]);
        assert NoneSpecial(s[1..]) ==> NoneSpecial(s) by {
          assert forall k :: 0 < k < |s| ==> s[k] == s[1..][k - 1];
        }
        assert NoneSpecial(s) ==> NoneSpecial(s[1..]);
      } else {
        assert |Escape(s)| >= |s| + 1;
      }
    }
  }

  lemma {:induction false} DoubledReadBack(s: string, q: char, rest: string)
    requires !StartsWith(rest, q)
    ensures ScanBody(Doubled(s, q) + [q] + rest, q, false) == Some(Scanned(s, rest))
  {
    if s == "" {
      assert ([q] + rest)[1..] == rest;
      assert Doubled(s, q) + [q] + rest == [q] + rest;
    } else {
      var head, tail := (if s[0] == q then [q, q] else [s[0]]), Doubled(s[1..], q) + [q] + rest;
      assert Doubled(s, q) + [q] + rest == head + tail;
      assert (head + tail)[|head|..] == tail;
      DoubledReadBack(s[1..], q, rest);
      assert [s[0]] + s[1..] == s;
    }
  }

  lemma {:induction false} EscapeConcat(a: string, b: string)
    ensures Escape(a + b) == Escape(a) + Escape(b)
  {
    if a == "" {
      assert a + b == b;
    } else {
      assert (a + b)[1..] == a[1..] + b;
      EscapeConcat(a[1..], b);
    }
  }

  function EscapedParts(parts: seq<string>): (escaped: seq<string>)
    ensures |escaped| == |parts| && forall k :: 0 <= k < |parts| ==> escaped[k] == Escape(parts[k])
  {
    seq(|parts|, k requires 0 <= k < |parts| => Escape(parts[k]))
  }

  lemma QuotedReadPlain(s: string, q: char, rest: string)
    requires !StartsWith(rest, q)
    ensures ScanQuoted(Quoted(s, q) + rest, q, false) == Some(Scanned(Escape(s), rest))
  {
    DoubledReadBack(Escape(s), q, rest);
    AfterOpening(q, Doubled(Escape(s), q), rest);
  }

  lemma PartReadPlain(part: string)
    ensures ReadAs(Quoted(part, '`'), Escape(part), false)
  {
    forall tail | !StartsWith(tail, '`')
      ensures ScanQuoted(Quoted(part, '`') + tail, '`', false) == Some(Scanned(Escape(part), tail))
    {
      QuotedReadPlain(part, '`', tail);
    }
  }

  lemma PartsReadPlain(parts: seq<string>)
    requires |parts| > 0
    ensures ScanParts(Join(QuotedParts(parts), "."), false) == Some(Scanned(EscapedParts(parts), ""))
  {
    forall k | 0 <= k < |parts| ensures ReadAs(QuotedParts(parts)[k], EscapedParts(parts)[k], false) {
      PartReadPlain(parts[k]);
    }
    JoinedParts(QuotedParts(parts), EscapedParts(parts), "", false);
    assert Join(QuotedParts(parts), ".") + "" == Join(QuotedParts(parts), ".");
  }

  lemma {:induction false} EscapeJoin(parts: seq<string>)
    ensures Join(EscapedParts(parts), ".") == Escape(Join(parts, "."))
  {
    if |parts| > 1 {
      EscapeJoin(parts[1..]);
      assert EscapedParts(parts)[1..] == EscapedParts(parts[1..]);
      EscapeJoined(parts[0], Join(parts[1..], "."));
    }
  }

  lemma EscapeJoined(a: string, b: string)
    ensures Escape(a + "." + b) == Escape(a) + "." + Escape(b)
  {
    EscapeConcat(a + ".", b);
    EscapeConcat(a, ".");
    assert "."[1..] == "" && Escape(".") == ".";
  }

  /** MySQL knows no backslash escapes between backticks (MySQL 8.0 Reference Manual,
      section 9.2). Read that way a quoted identifier is the escaped name, so it names
      the identifier it was made from exactly when that needs no escape. */
  lemma PlainIDReadBack(s: string)
    requires s != ""
    ensures ScanID(QuoteID(s), false) == Some(Scanned(Escape(s), ""))
    ensures ScanID(QuoteID(s), false) == Some(Scanned(s, "")) <==>
            forall c :: c in s ==> c !in {'\0', '\n', '\r', '\\', '\U{1A}'}
  {
    PartsReadPlain(Split(s, '.'));
    EscapeJoin(Split(s, '.'));
    JoinSplit(s, '.');
    EscapeIsIdentity(s);
    assert NoneSpecial(s) <==> forall c :: c in s ==> !Special(c);
  }
}
