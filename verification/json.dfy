/**
 * `SimpleJsonWriter`: pretty JSON for integer arrays, string-to-integer
 * objects, nested position arrays, the whole index and query results. A
 * writer is modelled by the text it receives: each function returns what the
 * corresponding method writes, and consecutive writes concatenate. Keys and
 * locations are written raw, without JSON string escaping.
 */
module Json {
  import opened Strings
  import opened Ordered
  import opened Search

  /** `indent(element, level)`: `level` tabs, then the element. */
  function Indent(element: string, level: nat): (r: string)
    ensures |r| == level + |element|
    ensures r[..level] == Tabs(level) && r[level..] == element
  {
    Tabs(level) + element
  }

  /** `quote(element, level)`: `level` tabs, then the element between double
      quotes. */
  function Quote(element: string, level: nat): (r: string)
    ensures |r| == level + |element| + 2
    ensures r[..level] == Tabs(level) && r[level] == '"' && r[|r| - 1] == '"'
    ensures r[level + 1..|r| - 1] == element
  {
    Tabs(level) + "\"" + element + "\""
  }

  /** The character of a decimal digit. */
  function DigitChar(d: nat): char
    requires d < 10
  {
    "0123456789"[d]
  }

  predicate IsDigit(c: char)
  {
    '0' <= c <= '9'
  }

  /** The decimal digits of `n`, most significant first, no leading zero. */
  function Digits(n: nat): (r: string)
    ensures |r| > 0 && forall i :: 0 <= i < |r| ==> IsDigit(r[i])
    ensures |r| > 1 ==> r[0] != '0'
    decreases n
  {
    if n < 10 then [DigitChar(n)] else Digits(n / 10) + [DigitChar(n % 10)]
  }

  /** `Integer.toString(n)`. */
  function IntText(n: int): (r: string)
    ensures |r| > 0 && forall c :: c in r ==> IsDigit(c) || c == '-'
  {
    if n < 0 then "-" + Digits(-n) else Digits(n)
  }

  function DigitValue(c: char): (d: nat)
    requires IsDigit(c)
    ensures d < 10
  {
    c as int - '0' as int
  }

  /** The value of a string of decimal digits. */
  function DigitsValue(s: string): nat
    requires forall i :: 0 <= i < |s| ==> IsDigit(s[i])
    decreases |s|
  {
    if |s| == 0 then 0 else DigitsValue(s[..|s| - 1]) * 10 + DigitValue(s[|s| - 1])
  }

  /** Reading the digits back gives the number. */
  lemma {:induction false} DigitsRoundTrip(n: nat)
    ensures DigitsValue(Digits(n)) == n
    decreases n
  {
    if n >= 10 {
      DigitsRoundTrip(n / 10);
      var s := Digits(n);
      assert s[..|s| - 1] == Digits(n / 10);
    }
  }

  /** Reading an integer's text back gives the integer. */
  lemma IntTextRoundTrip(n: int)
    ensures IntText(n)[0] == '-' <==> n < 0
    ensures n < 0 ==> -(DigitsValue(IntText(n)[1..]) as int) == n
    ensures n >= 0 ==> DigitsValue(IntText(n)) == n
  {
    if n < 0 {
      DigitsRoundTrip(-n);
      assert IntText(n) == "-" + Digits(-n);
      assert IntText(n)[1..] == Digits(-n);
    } else {
      DigitsRoundTrip(n);
      assert IntText(n) == Digits(n);
      assert IsDigit(Digits(n)[0]);
    }
  }

  lemma Assoc(a: string, b: string, c: string)
    ensures a + (b + c) == a + b + c
  {
  }

  /** The writes of the `while` loop after the first element: a separator
      before each remaining part. */
  function Continue(sep: string, parts: seq<string>): (r: string)
    ensures |parts| > 0 ==> r == sep + Join(sep, parts)
    ensures |parts| == 0 ==> r == ""
    decreases |parts|
  {
    if |parts| == 0 then "" else sep + parts[0] + Continue(sep, parts[1..])
  }

  /** The first-then-loop pattern of every writer here: the first part, then
      each remaining one preceded by the separator. */
  function Separated(sep: string, parts: seq<string>): (r: string)
    ensures r == Join(sep, parts)
  {
    if |parts| == 0 then "" else parts[0] + Continue(sep, parts[1..])
  }

  /** The element lines of `asArray`: each element's text at the given level. */
  function ArrayItems(elems: seq<int>, level: nat): (r: seq<string>)
    ensures |r| == |elems|
    ensures forall i :: 0 <= i < |r| ==> r[i] == Tabs(level) + IntText(elems[i])
  {
    seq(|elems|, i requires 0 <= i < |elems| => Indent(IntText(elems[i]), level))
  }

  /** `asArray(elements, writer, level)`. */
  function AsArray(elems: seq<int>, level: nat): (r: string)
    ensures |elems| == 0 ==> r == "[\n\n" + Tabs(level) + "]"
    ensures |elems| > 0 ==> r == "[\n" + Join(",\n", ArrayItems(elems, level + 1)) + "\n" + Tabs(level) + "]"
  {
    var items := ArrayItems(elems, level + 1);
    var r := "[\n" + Separated(",\n", items) + "\n" + Indent("]", level);
    Assoc("[\n" + Separated(",\n", items) + "\n", Tabs(level), "]");
    r
  }

  /** Each line followed by a comma except the last. */
  function Commas(items: seq<string>): (r: seq<string>)
    ensures |r| == |items|
    ensures forall i :: 0 <= i < |r| ==> r[i] == items[i] + (if i < |items| - 1 then "," else "")
  {
    seq(|items|, i requires 0 <= i < |items| => items[i] + (if i < |items| - 1 then "," else ""))
  }

  /** Joining with `",\n"` puts every part but the last on a line ending in
      a comma. */
  lemma {:induction false} CommaLines(items: seq<string>)
    ensures Join(",\n", items) == Join("\n", Commas(items))
    decreases |items|
  {
    if |items| > 1 {
      CommaLines(items[1..]);
      assert Commas(items)[1..] == Commas(items[1..]);
      Assoc(items[0], ",", "\n" + Join("\n", Commas(items[1..])));
      assert ",\n" + Join(",\n", items[1..]) == "," + ("\n" + Join("\n", Commas(items[1..])));
      Assoc(items[0], ",\n", Join(",\n", items[1..]));
      Assoc(items[0] + ",", "\n", Join("\n", Commas(items[1..])));
    } else if |items| == 1 {
      assert Commas(items)[0] == items[0] + "" == items[0];
      assert Commas(items) == [items[0]];
    }
  }

  lemma {:induction false} JoinSnoc(sep: string, parts: seq<string>, last: string)
    requires |parts| > 0
    ensures Join(sep, parts + [last]) == Join(sep, parts) + sep + last
    decreases |parts|
  {
    if |parts| > 1 {
      assert (parts + [last])[1..] == parts[1..] + [last];
      JoinSnoc(sep, parts[1..], last);
      Assoc(parts[0] + sep, Join(sep, parts[1..]) + sep, last);
      Assoc(parts[0] + sep, Join(sep, parts[1..]), sep);
    } else {
      assert parts + [last] == [parts[0], last];
      assert [parts[0], last][1..] == [last];
    }
  }

  /** `asArray` of a non-empty collection, line by line: the opening
      bracket, each element at one more level with a comma after all but
      the last, and the closing bracket at the given level. */
  lemma ArrayLines(elems: seq<int>, level: nat)
    requires |elems| > 0
    ensures Split(AsArray(elems, level), '\n') == ["["] + Commas(ArrayItems(elems, level + 1)) + [Tabs(level) + "]"]
  {
    var items := ArrayItems(elems, level + 1);
    var mid := Commas(items);
    var lines := ["["] + mid + [Tabs(level) + "]"];
    CommaLines(items);
    JoinSnoc("\n", ["["] + mid, Tabs(level) + "]");
    assert (["["] + mid)[1..] == mid;
    assert Join("\n", ["["] + mid) == "[" + "\n" + Join("\n", mid);
    assert "[" + "\n" == "[\n";
    forall i | 0 <= i < |lines|
      ensures '\n' !in lines[i]
    {
      if 0 < i < |lines| - 1 {
        assert lines[i] == mid[i - 1];
        assert '\n' !in IntText(elems[i - 1]);
        assert '\n' !in Tabs(level + 1);
      } else {
        assert '\n' !in Tabs(level);
      }
    }
    assert "\n" == ['\n'];
    SplitJoin(lines, '\n');
  }

  /** `asArray` of an empty collection is three lines, the middle one empty. */
  lemma EmptyArrayLines(level: nat)
    ensures Split(AsArray([], level), '\n') == ["[", "", Tabs(level) + "]"]
  {
    var lines := ["[", "", Tabs(level) + "]"];
    assert lines[1..] == ["", Tabs(level) + "]"];
    assert lines[1..][1..] == [Tabs(level) + "]"];
    assert Join("\n", lines[1..][1..]) == Tabs(level) + "]";
    assert Join("\n", lines[1..]) == "" + "\n" + (Tabs(level) + "]");
    assert Join("\n", lines) == "[" + "\n" + ("" + "\n" + (Tabs(level) + "]"));
    assert "[" + "\n" + ("" + "\n" + (Tabs(level) + "]")) == "[\n\n" + (Tabs(level) + "]");
    Assoc("[\n\n", Tabs(level), "]");
    assert '\n' !in Tabs(level);
    SplitJoin(lines, '\n');
  }

  /** `asArray(elements)`: the text written at level 0. */
  function AsArrayText(elems: seq<int>): (r: string)
    ensures |elems| == 0 ==> r == "[\n\n]"
    ensures |elems| > 0 ==> r == "[\n" + Join(",\n", ArrayItems(elems, 1)) + "\n]"
  {
    AsArray(elems, 0)
  }

  /** The text of one `asObject` entry: the key in quotes, a colon and the
      value. */
  function ObjectEntry(k: string, v: int): string
  {
    "\"" + k + "\"" + ": " + IntText(v)
  }

  /** An entry written at a level is one line when its key is. */
  lemma EntryOneLine(k: string, v: int, level: nat)
    requires '\n' !in k
    ensures '\n' !in Indent(ObjectEntry(k, v), level)
  {
    assert '\n' !in IntText(v);
    assert '\n' !in Tabs(level);
  }

  /** The entry lines of `asObject` at the given level, in key order. */
  function ObjectItems(m: map<string, int>, level: nat): (r: seq<string>)
    ensures |r| == |m|
  {
    var keys := SortedKeys(m.Keys);
    seq(|keys|, i requires 0 <= i < |keys| => Indent(ObjectEntry(keys[i], m[keys[i]]), level))
  }

  /** `asObject(elements, writer, level)`, for a map iterated in key order. */
  function AsObject(m: map<string, int>, level: nat): (r: string)
    ensures |m| == 0 ==> r == "{\n" + Tabs(level) + "}"
    ensures |m| > 0 ==> r == "{\n" + Join(",\n", ObjectItems(m, level + 1)) + "\n" + Tabs(level) + "}"
  {
    var items := ObjectItems(m, level + 1);
    var head := if |items| > 0 then "{\n" + Separated(",\n", items) else "{";
    assert "{" + "\n" == "{\n";
    Assoc(head + "\n", Tabs(level), "}");
    head + "\n" + Indent("}", level)
  }

  /** Every entry line is one line when no key holds a newline. */
  lemma ObjectItemsOneLine(m: map<string, int>, level: nat)
    requires forall k :: k in m ==> '\n' !in k
    ensures forall i :: 0 <= i < |ObjectItems(m, level)| ==> '\n' !in ObjectItems(m, level)[i]
  {
    var keys := SortedKeys(m.Keys);
    forall i | 0 <= i < |ObjectItems(m, level)|
      ensures '\n' !in ObjectItems(m, level)[i]
    {
      assert keys[i] in m;
      EntryOneLine(keys[i], m[keys[i]], level);
    }
  }

  /** The text of `asObject` is its lines joined by newlines. */
  lemma ObjectJoined(m: map<string, int>, level: nat)
    ensures AsObject(m, level) == Join("\n", ["{"] + Commas(ObjectItems(m, level + 1)) + [Tabs(level) + "}"])
  {
    var items := ObjectItems(m, level + 1);
    var mid := Commas(items);
    var lines := ["{"] + mid + [Tabs(level) + "}"];
    if |m| == 0 {
      assert lines == ["{", Tabs(level) + "}"];
      assert lines[1..] == [Tabs(level) + "}"];
      assert Join("\n", lines) == "{" + "\n" + (Tabs(level) + "}");
      Assoc("{\n", Tabs(level), "}");
    } else {
      CommaLines(items);
      JoinSnoc("\n", ["{"] + mid, Tabs(level) + "}");
      assert (["{"] + mid)[1..] == mid;
      assert Join("\n", ["{"] + mid) == "{" + "\n" + Join("\n", mid);
      assert "{" + "\n" == "{\n";
    }
  }

  /** `asObject` line by line: the opening brace, each entry at one more
      level with a comma after all but the last, and the closing brace at the
      given level; an empty map has no entry lines. Keys holding a newline
      would break lines, as nothing is escaped. */
  lemma ObjectLines(m: map<string, int>, level: nat)
    requires forall k :: k in m ==> '\n' !in k
    ensures Split(AsObject(m, level), '\n') == ["{"] + Commas(ObjectItems(m, level + 1)) + [Tabs(level) + "}"]
  {
    var items := ObjectItems(m, level + 1);
    var mid := Commas(items);
    var lines := ["{"] + mid + [Tabs(level) + "}"];
    ObjectItemsOneLine(m, level + 1);
    assert '\n' !in Tabs(level);
    forall i | 0 <= i < |lines|
      ensures '\n' !in lines[i]
    {
      if 0 < i < |lines| - 1 {
        assert lines[i] == items[i - 1] + (if i - 1 < |items| - 1 then "," else "");
      }
    }
    ObjectJoined(m, level);
    assert "\n" == ['\n'];
    SplitJoin(lines, '\n');
  }

  /** `asObject(elements)`: the text written at level 0. */
  function AsObjectText(m: map<string, int>): (r: string)
    ensures |m| == 0 ==> r == "{\n}"
    ensures |m| > 0 ==> r == "{\n" + Join(",\n", ObjectItems(m, 1)) + "\n}"
  {
    AsObject(m, 0)
  }

  /** One `asNestedArray` entry: the key quoted at the given level, a colon,
      and the key's positions as an array at that level. */
  function NestedArrayEntry(k: string, ps: set<nat>, level: nat): string
  {
    Quote(k, level) + ": " + AsArray(SortedNats(ps), level)
  }

  function NestedArrayItems(m: map<string, set<nat>>, level: nat): (r: seq<string>)
    ensures |r| == |m|
  {
    var keys := SortedKeys(m.Keys);
    seq(|keys|, i requires 0 <= i < |keys| => NestedArrayEntry(keys[i], m[keys[i]], level))
  }

  /** `asNestedArray(elements, writer, level)`, for sorted keys and sorted
      position sets. */
  function AsNestedArray(m: map<string, set<nat>>, level: nat): (r: string)
    ensures |m| == 0 ==> r == "{\n\n" + Tabs(level) + "}"
    ensures |m| > 0 ==> r == "{\n" + Join(",\n", NestedArrayItems(m, level + 1)) + "\n" + Tabs(level) + "}"
  {
    var items := NestedArrayItems(m, level + 1);
    Assoc("{\n" + Separated(",\n", items) + "\n", Tabs(level), "}");
    "{\n" + Separated(",\n", items) + "\n" + Indent("}", level)
  }

  /** `asNestedArray(elements)`: the text written at level 0. */
  function AsNestedArrayText(m: map<string, set<nat>>): (r: string)
    ensures |m| == 0 ==> r == "{\n\n}"
    ensures |m| > 0 ==> r == "{\n" + Join(",\n", NestedArrayItems(m, 1)) + "\n}"
  {
    AsNestedArray(m, 0)
  }

  /** One `asNestedObject` entry: the word quoted at the given level, a
      colon, and its location map as a nested array at that level. */
  function NestedObjectEntry(k: string, locs: map<string, set<nat>>, level: nat): string
  {
    Quote(k, level) + ": " + AsNestedArray(locs, level)
  }

  function NestedObjectItems(m: map<string, map<string, set<nat>>>, level: nat): (r: seq<string>)
    ensures |r| == |m|
  {
    var keys := SortedKeys(m.Keys);
    seq(|keys|, i requires 0 <= i < |keys| => NestedObjectEntry(keys[i], m[keys[i]], level))
  }

  /** `asNestedObject(map, writer, level)`: the whole index. */
  function AsNestedObject(m: map<string, map<string, set<nat>>>, level: nat): (r: string)
    ensures |m| == 0 ==> r == "{\n" + Tabs(level) + "}"
    ensures |m| > 0 ==> r == "{\n" + Join(",\n", NestedObjectItems(m, level + 1)) + "\n" + Tabs(level) + "}"
  {
    var items := NestedObjectItems(m, level + 1);
    var head := if |items| > 0 then "{\n" + Separated(",\n", items) else "{";
    assert "{" + "\n" == "{\n";
    Assoc(head + "\n", Tabs(level), "}");
    head + "\n" + Indent("}", level)
  }

  /** `asNestedObject(map)`: the text written at level 0. */
  function AsNestedObjectText(m: map<string, map<string, set<nat>>>): (r: string)
    ensures |m| == 0 ==> r == "{\n}"
    ensures |m| > 0 ==> r == "{\n" + Join(",\n", NestedObjectItems(m, 1)) + "\n}"
  {
    AsNestedObject(m, 0)
  }

  /** One field of `query(result, writer)`: the quoted name at three tabs,
      a colon, the value, and a comma unless it is the last field, then a
      newline. */
  function FieldText(name: string, value: string, last: bool): string
  {
    Quote(name, 3) + ": " + value + (if last then "\n" else ",\n")
  }

  /** A field as a line of text: `"name": value`, three tabs in, with a
      trailing comma unless it is the last. */
  function FieldLine(name: string, value: string, last: bool): string
  {
    Tabs(3) + ['"'] + name + ['"', ':', ' '] + value + (if last then "" else ",")
  }

  /** The three lines of a query result, in the order where, count, score. */
  function FieldLines(q: QueryResult, score: string): seq<string>
  {
    [ FieldLine("where", ['"'] + q.location + ['"'], false)
    , FieldLine("count", IntText(q.matches), false)
    , FieldLine("score", score, true) ]
  }

  /** A written field is its line followed by a newline. */
  lemma FieldTextLine(name: string, value: string, last: bool)
    ensures FieldText(name, value, last) == FieldLine(name, value, last) + "\n"
  {
    var t := FieldText(name, value, last);
    var l := FieldLine(name, value, last) + "\n";
    assert |t| == |l|;
    forall i | 0 <= i < |t|
      ensures t[i] == l[i]
    {
    }
  }

  /** The three written fields are the three field lines, each ended by a
      newline. */
  lemma FieldsJoined(q: QueryResult, score: string)
    ensures FieldText("where", Quote(q.location, 0), false)
      + (FieldText("count", IntText(q.matches), false) + FieldText("score", score, true))
      == Join("\n", FieldLines(q, score) + [""])
  {
    var lines := FieldLines(q, score) + [""];
    var where, count, scored := lines[0], lines[1], lines[2];
    assert Quote(q.location, 0) == ['"'] + q.location + ['"'];
    FieldTextLine("where", Quote(q.location, 0), false);
    FieldTextLine("count", IntText(q.matches), false);
    FieldTextLine("score", score, true);
    assert lines[1..] == [count, scored, ""];
    assert lines[1..][1..] == [scored, ""];
    assert lines[1..][1..][1..] == [""];
    assert Join("\n", lines[1..][1..]) == scored + "\n" + "";
    assert scored + "\n" + "" == scored + "\n";
    assert Join("\n", lines[1..]) == count + "\n" + (scored + "\n");
    assert Join("\n", lines) == where + "\n" + (count + "\n" + (scored + "\n"));
  }

  /** `query(result, writer)`: the location, match count and score text, in
      that order, each on its own line ended by a newline. The score's
      decimal text is given. */
  function QueryFields(q: QueryResult, score: string): (r: string)
    ensures r == Join("\n", FieldLines(q, score) + [""])
  {
    FieldsJoined(q, score);
    FieldText("where", Quote(q.location, 0), false)
      + (FieldText("count", IntText(q.matches), false) + FieldText("score", score, true))
  }

  /** A result's text splits into its three field lines; only the location
      and the score text could break that, by holding a newline. */
  lemma QueryFieldsLines(q: QueryResult, score: string)
    requires '\n' !in q.location && '\n' !in score
    ensures Split(QueryFields(q, score), '\n') == FieldLines(q, score) + [""]
  {
    var lines := FieldLines(q, score) + [""];
    assert '\n' !in IntText(q.matches);
    assert '\n' !in Tabs(3);
    forall i | 0 <= i < |lines|
      ensures '\n' !in lines[i]
    {
    }
    assert "\n" == ['\n'];
    SplitJoin(lines, '\n');
  }

  /** One result: its opening brace at two tabs, then its fields. */
  function ResultBlock(q: QueryResult, score: string): string
  {
    Indent("{\n", 2) + QueryFields(q, score)
  }

  /** `queryToJson(results, writer)` with `format` standing for the score's
      decimal formatting. */
  function QueryToJson(results: seq<QueryResult>, format: QueryResult -> string): (r: string)
    ensures |results| == 0 ==> r == ""
    ensures |results| > 0 ==>
      r == Join(Tabs(2) + "},\n", seq(|results|, i requires 0 <= i < |results| => ResultBlock(results[i], format(results[i]))))
        + Tabs(2) + "}\n"
  {
    if |results| == 0 then ""
    else
      var blocks := seq(|results|, i requires 0 <= i < |results| => ResultBlock(results[i], format(results[i])));
      var body := blocks[0] + Continue(Indent("},\n", 2), blocks[1..]);
      assert body == Separated(Tabs(2) + "},\n", blocks);
      Assoc(body, Tabs(2), "}\n");
      body + Indent("}\n", 2)
  }
}
