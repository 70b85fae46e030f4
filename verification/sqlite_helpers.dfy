/**
  The pure parts of the SQLite helper script: building the INSERT and
  UPDATE statements and their parameter tuples from a dictionary whose
  `None` values are dropped, and the `=====` banner printed above a query's
  output. Executing the statements and printing are not modelled; the
  functions return the text and parameters that would be handed over.
 */
module SqliteHelpers {

  /** A Python value bound to a statement parameter. */
  datatype SqlValue = Null | Text(text: string) | Integer(number: int) | Boolean(flag: bool)

  /** One `(key, value)` pair of the dictionary, in insertion order. */
  datatype Item = Item(key: string, value: SqlValue)

  /** A statement's text, the column names it writes, and the parameters
      bound to its `?` marks. */
  datatype Statement = Statement(sql: string, columns: seq<string>, params: seq<SqlValue>)

  /** `filter(lambda x: x[1] is not None, data.items())`: only `None` is
      dropped; `False`, `0` and `""` are kept. */
  function NonNull(data: seq<Item>): (r: seq<Item>)
    ensures |r| <= |data|
    ensures forall i :: 0 <= i < |r| ==> r[i].value != Null
    ensures forall x :: x in r <==> x in data && x.value != Null
  {
    if |data| == 0 then []
    else
      var rest := NonNull(data[1..]);
      assert forall x :: x in data <==> x == data[0] || x in data[1..];
      if data[0].value != Null then [data[0]] + rest else rest
  }

  /** The filter respects order: filtering two runs one after the other is
      filtering their concatenation. */
  lemma {:induction false} NonNullAppend(a: seq<Item>, b: seq<Item>)
    ensures NonNull(a + b) == NonNull(a) + NonNull(b)
    decreases |a|
  {
    if |a| > 0 {
      assert (a + b)[0] == a[0];
      assert (a + b)[1..] == a[1..] + b;
      NonNullAppend(a[1..], b);
    } else {
      assert a + b == b;
    }
  }

  /** Entries already free of `None` pass unchanged. */
  lemma {:induction false} NonNullKeepsClean(data: seq<Item>)
    requires forall i :: 0 <= i < |data| ==> data[i].value != Null
    ensures NonNull(data) == data
    decreases |data|
  {
    if |data| > 0 {
      NonNullKeepsClean(data[1..]);
    }
  }

  /** `tuple(key for key, val in data_items)`. */
  function Columns(items: seq<Item>): (r: seq<string>)
    ensures |r| == |items|
    ensures forall i :: 0 <= i < |r| ==> r[i] == items[i].key
  {
    seq(|items|, i requires 0 <= i < |items| => items[i].key)
  }

  /** `tuple(val for key, val in data_items)`. */
  function Values(items: seq<Item>): (r: seq<SqlValue>)
    ensures |r| == |items|
    ensures forall i :: 0 <= i < |r| ==> r[i] == items[i].value
  {
    seq(|items|, i requires 0 <= i < |items| => items[i].value)
  }

  /** `sep.join(parts)`. */
  function Join(parts: seq<string>, sep: string): string
  {
    if |parts| == 0 then ""
    else if |parts| == 1 then parts[0]
    else parts[0] + sep + Join(parts[1..], sep)
  }

  /** The number of occurrences of `c` in `s`. */
  function Count(c: char, s: string): nat
  {
    if |s| == 0 then 0 else (if s[0] == c then 1 else 0) + Count(c, s[1..])
  }

  /** The total number of occurrences of `c` across `parts`. */
  function CountAll(c: char, parts: seq<string>): nat
  {
    if |parts| == 0 then 0 else Count(c, parts[0]) + CountAll(c, parts[1..])
  }

  lemma {:induction false} CountAppend(c: char, a: string, b: string)
    ensures Count(c, a + b) == Count(c, a) + Count(c, b)
    decreases |a|
  {
    if |a| > 0 {
      assert (a + b)[0] == a[0];
      assert (a + b)[1..] == a[1..] + b;
      CountAppend(c, a[1..], b);
    } else {
      assert a + b == b;
    }
  }

  /** Joining with a separator free of `c` neither adds nor loses a `c`. */
  lemma {:induction false} JoinCount(c: char, parts: seq<string>, sep: string)
    requires Count(c, sep) == 0
    ensures Count(c, Join(parts, sep)) == CountAll(c, parts)
    decreases |parts|
  {
    if |parts| > 1 {
      JoinCount(c, parts[1..], sep);
      CountAppend(c, parts[0] + sep, Join(parts[1..], sep));
      CountAppend(c, parts[0], sep);
      assert CountAll(c, parts[1..][1..]) == CountAll(c, parts[2..]);
    } else if |parts| == 1 {
      assert parts[1..] == [];
    }
  }

  /** `",".join("?" * n)`: one `?` per column, separated by commas. */
  function Placeholders(n: nat): string
  {
    Join(seq(n, _ => "?"), ",")
  }

  lemma {:induction false} PlaceholdersShape(n: nat)
    ensures Count('?', Placeholders(n)) == n
    ensures |Placeholders(n)| == if n == 0 then 0 else 2 * n - 1
    decreases n
  {
    assert Count('?', ",") == 0;
    JoinCount('?', seq(n, _ => "?"), ",");
    QuestionMarks(n);
    JoinLength(n);
  }

  lemma {:induction false} QuestionMarks(n: nat)
    ensures CountAll('?', seq(n, _ => "?")) == n
    decreases n
  {
    if n > 0 {
      assert seq(n, _ => "?")[1..] == seq(n - 1, _ => "?");
      QuestionMarks(n - 1);
    }
  }

  lemma {:induction false} JoinLength(n: nat)
    ensures |Join(seq(n, _ => "?"), ",")| == if n == 0 then 0 else 2 * n - 1
    decreases n
  {
    if n > 1 {
      assert seq(n, _ => "?")[1..] == seq(n - 1, _ => "?");
      JoinLength(n - 1);
    }
  }

  /** No character of `s` is a `?` mark. */
  predicate Unmarked(s: string)
  {
    '?' !in s
  }

  lemma {:induction false} UnmarkedCount(s: string)
    requires Unmarked(s)
    ensures Count('?', s) == 0
    decreases |s|
  {
    if |s| > 0 {
      assert s == [s[0]] + s[1..];
      UnmarkedCount(s[1..]);
    }
  }

  /** The column names of the kept items carry no `?` mark. */
  predicate KeysUnmarked(data: seq<Item>)
  {
    forall i :: 0 <= i < |data| ==> Unmarked(data[i].key)
  }

  lemma {:induction false} UnmarkedKeysCount(items: seq<Item>, suffix: string)
    requires KeysUnmarked(items)
    ensures CountAll('?', seq(|items|, i requires 0 <= i < |items| => items[i].key + suffix)) == |items| * Count('?', suffix)
    decreases |items|
  {
    if |items| > 0 {
      var parts := seq(|items|, i requires 0 <= i < |items| => items[i].key + suffix);
      assert parts[1..] == seq(|items[1..]|, i requires 0 <= i < |items[1..]| => items[1..][i].key + suffix);
      UnmarkedKeysCount(items[1..], suffix);
      UnmarkedCount(items[0].key);
      CountAppend('?', items[0].key, suffix);
    }
  }

  lemma NonNullKeysUnmarked(data: seq<Item>)
    requires KeysUnmarked(data)
    ensures KeysUnmarked(NonNull(data))
  {
    var items := NonNull(data);
    forall i | 0 <= i < |items|
      ensures Unmarked(items[i].key)
    {
      assert items[i] in data;
    }
  }

  /** The fixed text of `insert_data`'s f-string around the table name,
      the column list and the placeholders. */
  const InsertHead: string := "\n    insert into "
  const InsertColumnsOpen: string := " ("
  const InsertValuesOpen: string := ")\n    values ("
  const InsertTail: string := ")\n    "

  /** `insert_data`'s statement: the non-`None` keys as the column list, one
      `?` per column, and the matching values as parameters. */
  function InsertStatement(table: string, data: seq<Item>): (r: Statement)
    // column `i` and parameter `i` are the key and the value of kept item `i`
    ensures var items := NonNull(data);
      && |r.columns| == |r.params| == |items|
      && (forall i :: 0 <= i < |items| ==> Item(r.columns[i], r.params[i]) == items[i])
    // the text names the table, then lists those columns and one mark each
    ensures r.sql == InsertHead + table + InsertColumnsOpen + Join(r.columns, ",")
                     + InsertValuesOpen + Placeholders(|r.columns|) + InsertTail
  {
    var items := NonNull(data);
    var cols := Columns(items);
    Statement(
      InsertHead + table + InsertColumnsOpen + Join(cols, ",") + InsertValuesOpen + Placeholders(|cols|) + InsertTail,
      cols,
      Values(items))
  }

  /** In a statement assembled from seven pieces, only the pieces that may
      hold marks contribute to the count. */
  lemma CountFrame(a: string, t: string, b: string, x: string, c: string, y: string, d: string)
    requires Unmarked(a) && Unmarked(t) && Unmarked(b) && Unmarked(c) && Unmarked(d)
    ensures Count('?', a + t + b + x + c + y + d) == Count('?', x) + Count('?', y)
  {
    UnmarkedCount(a);
    UnmarkedCount(t);
    UnmarkedCount(b);
    UnmarkedCount(c);
    UnmarkedCount(d);
    CountAppend('?', a, t);
    CountAppend('?', a + t, b);
    CountAppend('?', a + t + b, x);
    CountAppend('?', a + t + b + x, c);
    CountAppend('?', a + t + b + x + c, y);
    CountAppend('?', a + t + b + x + c + y, d);
  }

  /** The insert binds exactly one parameter per `?` in its text, provided
      neither the table nor a column name contains a `?`. */
  lemma InsertMarksMatchParams(table: string, data: seq<Item>)
    requires Unmarked(table) && KeysUnmarked(data)
    ensures Count('?', InsertStatement(table, data).sql) == |InsertStatement(table, data).params|
  {
    var items := NonNull(data);
    var cols := Columns(items);
    NonNullKeysUnmarked(data);
    ColumnsUnmarked(items);
    PlaceholdersShape(|cols|);
    var a, b, c, d := InsertHead, InsertColumnsOpen, InsertValuesOpen, InsertTail;
    CountFrame(a, table, b, Join(cols, ","), c, Placeholders(|cols|), d);
  }

  lemma ColumnsUnmarked(items: seq<Item>)
    requires KeysUnmarked(items)
    ensures Count('?', Join(Columns(items), ",")) == 0
  {
    UnmarkedCount(",");
    JoinCount('?', Columns(items), ",");
    UnmarkedKeysCount(items, "");
    assert forall i :: 0 <= i < |items| ==> items[i].key + "" == items[i].key;
    assert Columns(items) == seq(|items|, i requires 0 <= i < |items| => items[i].key + "");
  }

  /** The fixed text of `update_data`'s f-string; the one `?` between
      `UpdateWhere` and `UpdateTail` is the id's. */
  const UpdateHead: string := "\n        update "
  const UpdateSet: string := "\n        set "
  const UpdateWhere: string := "\n        where id = "
  const UpdateTail: string := "\n        "

  /** `[f"{key}=?" for key in cols]`: one assignment per column. */
  function Assignments(cols: seq<string>): (r: seq<string>)
    ensures |r| == |cols|
    ensures forall i :: 0 <= i < |r| ==> r[i] == cols[i] + "=?"
  {
    seq(|cols|, i requires 0 <= i < |cols| => cols[i] + "=?")
  }

  /** `update_data`'s statement: one `key=?` per non-`None` field, then the
      row id as the final parameter for `where id = ?`. */
  function UpdateStatement(table: string, data: seq<Item>, id: int): (r: Statement)
    // column `i` and parameter `i` are the key and the value of kept item `i`,
    // and the id comes last
    ensures var items := NonNull(data);
      && |r.columns| == |items|
      && |r.params| == |items| + 1
      && (forall i :: 0 <= i < |items| ==> Item(r.columns[i], r.params[i]) == items[i])
      && r.params[|items|] == Integer(id)
    // the text names the table, sets each of those columns, and selects by id
    ensures r.sql == UpdateHead + table + UpdateSet + Join(Assignments(r.columns), ",")
                     + UpdateWhere + "?" + UpdateTail
  {
    var items := NonNull(data);
    var cols := Columns(items);
    Statement(
      UpdateHead + table + UpdateSet + Join(Assignments(cols), ",") + UpdateWhere + "?" + UpdateTail,
      cols,
      Values(items) + [Integer(id)])
  }

  /** The update binds exactly one parameter per `?`: one per assignment plus
      the id, provided neither the table nor a column name contains a `?`. */
  lemma UpdateMarksMatchParams(table: string, data: seq<Item>, id: int)
    requires Unmarked(table) && KeysUnmarked(data)
    ensures Count('?', UpdateStatement(table, data, id).sql) == |UpdateStatement(table, data, id).params|
  {
    var items := NonNull(data);
    NonNullKeysUnmarked(data);
    AssignmentsMarks(items);
    var a, b, c1, c2 := UpdateHead, UpdateSet, UpdateWhere, UpdateTail;
    assert Count('?', "?") == 1;
    CountFrame(a, table, b, Join(Assignments(Columns(items)), ","), c1, "?", c2);
  }

  /** One `?` per `key=?` assignment. */
  lemma AssignmentsMarks(items: seq<Item>)
    requires KeysUnmarked(items)
    ensures Count('?', Join(Assignments(Columns(items)), ",")) == |items|
  {
    UnmarkedCount(",");
    JoinCount('?', Assignments(Columns(items)), ",");
    assert Assignments(Columns(items)) == seq(|items|, i requires 0 <= i < |items| => items[i].key + "=?");
    assert Count('?', "=?") == 1;
    UnmarkedKeysCount(items, "=?");
  }

  /** Python's `c * n`: empty when `n` is zero or negative. */
  function Repeat(c: char, n: int): (r: string)
    ensures |r| == if n <= 0 then 0 else n
    ensures forall i :: 0 <= i < |r| ==> r[i] == c
    decreases n
  {
    if n <= 0 then "" else [c] + Repeat(c, n - 1)
  }

  /** `str.upper()` restricted to ASCII letters. */
  function UpperChar(c: char): char
  {
    if 'a' <= c <= 'z' then (c as int - 32) as char else c
  }

  function Upper(s: string): (r: string)
    ensures |r| == |s|
    ensures forall i :: 0 <= i < |s| ==> r[i] == UpperChar(s[i])
  {
    seq(|s|, i requires 0 <= i < |s| => UpperChar(s[i]))
  }

  const DefaultMaxChar: int := 80
  const DefaultStartChars: int := 5
  const DefaultGapsChars: int := 2

  /** The line `print_special` writes, before its trailing newline:
      `start_chars` `=`, a space, the text upper-cased, a space, then as
      many `=` as are left of `max_char` after `gaps_chars`. */
  function BannerLine(text: string, maxChar: int, startChars: int, gapsChars: int): string
  {
    Repeat('=', startChars) + " " + Upper(text) + " " + Repeat('=', maxChar - |text| - startChars - gapsChars)
  }

  /** The line always opens with the `=` run, then the upper-cased text
      between two spaces. */
  lemma BannerLayout(text: string, maxChar: int, startChars: int, gapsChars: int)
    requires startChars >= 0
    ensures var line := BannerLine(text, maxChar, startChars, gapsChars);
      && |line| >= startChars + |text| + 2
      && line[..startChars] == Repeat('=', startChars)
      && line[startChars] == ' '
      && line[startChars + 1..startChars + 1 + |text|] == Upper(text)
      && line[startChars + 1 + |text|] == ' '
  {
    var line := BannerLine(text, maxChar, startChars, gapsChars);
    var a := Repeat('=', startChars);
    var u := Upper(text);
    assert line == a + " " + u + " " + Repeat('=', maxChar - |text| - startChars - gapsChars);
    assert line[..startChars] == a;
    assert line[startChars + 1..startChars + 1 + |text|] == u;
  }

  /** The line's length is the two runs, the text and the two spaces, so with
      two gap characters and room to spare it is exactly `max_char` wide. */
  lemma BannerWidth(text: string, maxChar: int, startChars: int, gapsChars: int)
    requires startChars >= 0
    ensures var rest := maxChar - |text| - startChars - gapsChars;
      |BannerLine(text, maxChar, startChars, gapsChars)| == startChars + |text| + 2 + (if rest <= 0 then 0 else rest)
    ensures gapsChars == 2 && |text| + startChars + 2 <= maxChar ==>
      |BannerLine(text, maxChar, startChars, gapsChars)| == maxChar
  {
  }

  /** With the defaults, any text of at most 73 characters gives an
      80-character line. */
  lemma DefaultBannerWidth(text: string)
    requires |text| <= 73
    ensures |BannerLine(text, DefaultMaxChar, DefaultStartChars, DefaultGapsChars)| == 80
  {
    BannerWidth(text, DefaultMaxChar, DefaultStartChars, DefaultGapsChars);
  }
}
