/** What `JSON.stringify` writes for arrays of strings, counters and nulls, and why it can be read only one way. */
module JsonText {
  import opened Common
  import opened Decimal

  datatype Value = Null | Number(n: nat) | Text(s: string) | Array(items: seq<Value>)

  function HexDigit(d: nat): (c: char)
    requires d < 16
    ensures c != '"' && c != '\\'
  {
    if d < 10 then '0' + d as char else 'a' + (d - 10) as char
  }

  predicate Shorthand(c: char) { c in "\"\\\n\r\t" || c as int == 8 || c as int == 12 }

  function ShorthandOf(c: char): (e: char)
    requires Shorthand(c)
    ensures e != 'u'
  {
    if c == '"' || c == '\\' then c
    else if c == '\n' then 'n'
    else if c == '\r' then 'r'
    else if c == '\t' then 't'
    else if c as int == 8 then 'b' else 'f'
  }

  /** One character as `JSON.stringify` quotes it. */
  function Escape(c: char): (e: string)
    ensures e != "" && e[0] != '"'
  {
    if Shorthand(c) then ['\\', ShorthandOf(c)]
    else if c as int < 32 then ['\\', 'u', '0', '0', HexDigit(c as int / 16), HexDigit(c as int % 16)]
    else [c]
  }

  function EscapeAll(s: string): string {
    if s == "" then "" else Escape(s[0]) + EscapeAll(s[1..])
  }

  /** The rest of an array after one element. */
  function Rest(items: seq<Value>): (t: string)
    ensures t != "" && t[0] == if items == [] then ']' else ','
  {
    if items == [] then "]" else "," + Stringify(items[0]) + Rest(items[1..])
  }

  predicate Starts(v: Value, c: char) {
    match v
    case Null => c == 'n'
    case Number(_) => IsDigit(c)
    case Text(_) => c == '"'
    case Array(_) => c == '['
  }

  function Stringify(v: Value): (t: string)
    ensures t != "" && Starts(v, t[0])
  {
    match v
    case Null => "null"
    case Number(n) => NatText(n)
    case Text(s) => "\"" + EscapeAll(s) + "\""
    case Array(items) => if items == [] then "[]" else "[" + Stringify(items[0]) + Rest(items[1..])
  }

  /** What may follow a value: nothing that could extend a number. */
  predicate Delimited(x: string) { x == "" || !IsDigit(x[0]) }

  lemma Regroup(a: string, b: string, c: string, x: string)
    ensures a + b + c + x == a + (b + (c + x))
  {
  }

  lemma NumberIsUnique(m: nat, n: nat, x: string, y: string)
    requires NatText(m) + x == NatText(n) + y && Delimited(x) && Delimited(y)
    ensures m == n && x == y
  {
    var a, b := NatText(m), NatText(n);
    RunLengthOf(a, x, IsDigit);
    RunLengthOf(b, y, IsDigit);
    SameCut(a, b, x, y);
  }

  lemma EscapeIsPrefixFree(c: char, d: char, x: string, y: string)
    requires Escape(c) + x == Escape(d) + y
    ensures c == d && x == y
  {
    var e, f := Escape(c), Escape(d);
    assert (e + x)[0] == e[0] && (f + y)[0] == f[0];
    if e[0] == '\\' {
      assert (e + x)[1] == e[1] && (f + y)[1] == f[1];
      if e[1] == 'u' {
        assert (e + x)[4] == e[4] && (f + y)[4] == f[4];
        assert (e + x)[5] == e[5] && (f + y)[5] == f[5];
      }
    }
    SameCut(e, f, x, y);
  }

  lemma {:induction false} QuotedIsUnique(s: string, t: string, x: string, y: string)
    requires EscapeAll(s) + "\"" + x == EscapeAll(t) + "\"" + y
    ensures s == t && x == y
  {
    if s == "" || t == "" {
      assert (EscapeAll(s) + "\"" + x)[0] == (EscapeAll(t) + "\"" + y)[0];
      assert s == t;
      assert EscapeAll(s) + "\"" + x == "\"" + x && EscapeAll(t) + "\"" + y == "\"" + y;
      SameCut("\"", "\"", x, y);
    } else {
      var p, q := EscapeAll(s[1..]) + "\"" + x, EscapeAll(t[1..]) + "\"" + y;
      assert EscapeAll(s) + "\"" + x == Escape(s[0]) + p;
      assert EscapeAll(t) + "\"" + y == Escape(t[0]) + q;
      EscapeIsPrefixFree(s[0], t[0], p, q);
      QuotedIsUnique(s[1..], t[1..], x, y);
    }
  }

  lemma {:induction false} RestIsUnique(a: seq<Value>, b: seq<Value>, x: string, y: string)
    requires Rest(a) + x == Rest(b) + y && Delimited(x) && Delimited(y)
    ensures a == b && x == y
    decreases a
  {
    assert (Rest(a) + x)[0] == (Rest(b) + y)[0];
    if a == [] {
      SameCut("]", "]", x, y);
    } else {
      var p, q := Rest(a[1..]) + x, Rest(b[1..]) + y;
      Regroup(",", Stringify(a[0]), Rest(a[1..]), x);
      Regroup(",", Stringify(b[0]), Rest(b[1..]), y);
      SameCut(",", ",", Stringify(a[0]) + p, Stringify(b[0]) + q);
      ValueIsUnique(a[0], b[0], p, q);
      RestIsUnique(a[1..], b[1..], x, y);
    }
  }

  /** Unique readability: a delimited text begins with the text of at most one value. */
  lemma {:induction false} ValueIsUnique(a: Value, b: Value, x: string, y: string)
    requires Stringify(a) + x == Stringify(b) + y && Delimited(x) && Delimited(y)
    ensures a == b && x == y
    decreases a
  {
    assert (Stringify(a) + x)[0] == (Stringify(b) + y)[0];
    match a
    case Null => SameCut("null", "null", x, y);
    case Number(n) => NumberIsUnique(n, b.n, x, y);
    case Text(s) =>
      var p, q := EscapeAll(s) + "\"" + x, EscapeAll(b.s) + "\"" + y;
      assert Stringify(a) + x == "\"" + p && Stringify(b) + y == "\"" + q;
      SameCut("\"", "\"", p, q);
      QuotedIsUnique(s, b.s, x, y);
    case Array(items) => ArrayIsUnique(items, b.items, x, y);
  }

  lemma {:induction false} ArrayIsUnique(a: seq<Value>, b: seq<Value>, x: string, y: string)
    requires Stringify(Array(a)) + x == Stringify(Array(b)) + y && Delimited(x) && Delimited(y)
    ensures a == b && x == y
    decreases a
  {
    assert (Stringify(Array(a)) + x)[1] == (Stringify(Array(b)) + y)[1];
    if a == [] || b == [] {
      SameCut("[]", "[]", x, y);
    } else {
      var p, q := Rest(a[1..]) + x, Rest(b[1..]) + y;
      Regroup("[", Stringify(a[0]), Rest(a[1..]), x);
      Regroup("[", Stringify(b[0]), Rest(b[1..]), y);
      SameCut("[", "[", Stringify(a[0]) + p, Stringify(b[0]) + q);
      ValueIsUnique(a[0], b[0], p, q);
      RestIsUnique(a[1..], b[1..], x, y);
    }
  }

  lemma StringifyInjective(a: Value, b: Value)
    requires Stringify(a) == Stringify(b)
    ensures a == b
  {
    assert Stringify(a) + "" == Stringify(b) + "";
    ValueIsUnique(a, b, "", "");
  }

  /** Quote, backslash and the five named controls have two-character escapes; other controls four digits. */
  lemma EscapeExactly(c: char)
    ensures Escape(c) ==
            match c as int
            case 8 => "\\b"
            case 9 => "\\t"
            case 10 => "\\n"
            case 12 => "\\f"
            case 13 => "\\r"
            case 34 => "\\\""
            case 92 => "\\\\"
            case n => if n < 16 then "\\u000" + ["0123456789abcdef"[n % 16]]
                      else if n < 32 then "\\u001" + ["0123456789abcdef"[n % 16]]
                      else [c]
  {
  }

  /** A quoted string is its characters, each escaped, between quotation marks. */
  lemma {:induction false} EscapeConcat(a: string, b: string)
    ensures EscapeAll(a + b) == EscapeAll(a) + EscapeAll(b)
  {
    if a == "" {
      assert a + b == b;
    } else {
      assert (a + b)[1..] == a[1..] + b;
      EscapeConcat(a[1..], b);
      Assoc(Escape(a[0]), EscapeAll(a[1..]), EscapeAll(b));
    }
  }

  lemma PairText(a: Value, b: Value)
    ensures Stringify(Array([a, b])) == "[" + Stringify(a) + "," + Stringify(b) + "]"
  {
    assert [a, b][1..] == [b] && [b][1..] == [];
    assert Rest([b]) == "," + Stringify(b) + "]";
    assert "[" + Stringify(a) + ("," + Stringify(b) + "]") == "[" + Stringify(a) + "," + Stringify(b) + "]";
  }

  lemma ScalarText(n: nat, s: string)
    ensures Stringify(Null) == "null" && Stringify(Number(n)) == NatText(n)
    ensures Stringify(Text(s)) == "\"" + EscapeAll(s) + "\"" && Stringify(Array([])) == "[]"
  {
  }
}
