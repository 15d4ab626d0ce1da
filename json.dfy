/**
 * The values the JSON codec produces (what `json.loads` returns), with the Python
 * behaviour the peer manager relies on: truthiness (`if not message`), hashability
 * (dictionary keys), `message.get(name)`, and `str()` as used inside f-strings.
 */
module Json {
  import opened Wrappers
  import opened Assoc
  import opened Text

  datatype Value =
    | Null
    | Bool(b: bool)
    | Num(n: int)
    | Str(s: string)
    | Arr(items: seq<Value>)
    | Obj(fields: Entries<string, Value>)

  /** Python truthiness: `None`, `False`, `0`, `""`, `[]` and `{}` are false. */
  predicate Truthy(v: Value) {
    match v
    case Null => false
    case Bool(b) => b
    case Num(n) => n != 0
    case Str(s) => s != ""
    case Arr(items) => items != []
    case Obj(fields) => fields != []
  }

  /** Lists and dicts cannot be dictionary keys: using one raises TypeError. */
  predicate Hashable(v: Value) {
    !v.Arr? && !v.Obj?
  }

  /**
   * A dictionary key as Python compares keys: `True == 1` and `False == 0`, so a bool and the
   * number it equals are one key. Only hashable values (not lists or dicts) are keys.
   */
  datatype Key = NoneKey | IntKey(n: int) | StrKey(s: string)

  function PyKey(v: Value): (k: Key)
    requires Hashable(v)
    ensures KeyTruthy(k) == Truthy(v)
  {
    match v
    case Null => NoneKey
    case Bool(b) => IntKey(if b then 1 else 0)
    case Num(n) => IntKey(n)
    case Str(s) => StrKey(s)
  }

  /** The truthiness every value that is this key shares. */
  predicate KeyTruthy(k: Key) {
    match k
    case NoneKey => false
    case IntKey(n) => n != 0
    case StrKey(s) => s != ""
  }

  /** A bool or a number: the values Python compares numerically. */
  predicate IsNumber(v: Value) {
    v.Bool? || v.Num?
  }

  function NumberOf(v: Value): int
    requires IsNumber(v)
  {
    if v.Bool? then (if v.b then 1 else 0) else v.n
  }

  /** Python's `==` on hashable values: numerically on bools and numbers, structurally otherwise. */
  predicate PyEquals(a: Value, b: Value) {
    if IsNumber(a) && IsNumber(b) then NumberOf(a) == NumberOf(b) else a == b
  }

  /** Two hashable values are the same key exactly when Python finds them equal. */
  lemma KeyIsEquality(a: Value, b: Value)
    requires Hashable(a) && Hashable(b)
    ensures PyKey(a) == PyKey(b) <==> PyEquals(a, b)
  {
  }

  /** `message.get(name)` on a dict: the field's value, or `None` when absent. */
  function Field(fields: Entries<string, Value>, name: string): Value {
    Lookup(fields, name).GetOr(Null)
  }

  /** `str` and `repr` agree on `None`, booleans and numbers. */
  function ScalarText(v: Value): string
    requires !v.Str? && !v.Arr? && !v.Obj?
  {
    match v
    case Null => "None"
    case Bool(b) => if b then "True" else "False"
    case Num(n) => Decimal(n)
  }

  /**
   * The quote `repr` puts around a string: a single quote, unless the string holds a single
   * quote and no double quote.
   */
  function QuoteFor(s: string): char {
    if '\'' in s && '"' !in s then '"' else '\''
  }

  function HexDigit(d: int): char
    requires 0 <= d < 16
  {
    "0123456789abcdef"[d]
  }

  /**
   * How `repr` writes one character inside quotes `q`: the quote and the backslash escaped,
   * tab, line feed and carriage return by name, other control characters (and the Latin-1
   * ones Python does not print) as `\xNN`, everything else as it is.
   */
  function EscapeChar(c: char, q: char): string {
    if c == q || c == '\\' then ['\\', c]
    else if c == '\t' then "\\t"
    else if c == '\n' then "\\n"
    else if c == '\r' then "\\r"
    else if c as int < 0x20 || 0x7F <= c as int <= 0xA0 || c as int == 0xAD then
      ['\\', 'x', HexDigit(c as int / 16), HexDigit(c as int % 16)]
    else [c]
  }

  function Escaped(s: string, q: char): string {
    if s == [] then [] else EscapeChar(s[0], q) + Escaped(s[1..], q)
  }

  /** `repr` of a string: the escaped characters between the chosen quotes. */
  function StrRepr(s: string): (r: string)
    ensures |r| >= 2 && r[0] == QuoteFor(s) && r[|r| - 1] == QuoteFor(s)
  {
    [QuoteFor(s)] + Escaped(s, QuoteFor(s)) + [QuoteFor(s)]
  }

  /** Printable ASCII other than the quotes and the backslash: shown as it is. */
  predicate Plain(c: char) {
    0x20 <= c as int < 0x7F && c != '\'' && c != '"' && c != '\\'
  }

  /** Plain characters are never escaped, whichever quote encloses them. */
  lemma {:induction false} EscapedPlain(s: string, q: char)
    requires q == '\'' || q == '"'
    requires forall i :: 0 <= i < |s| ==> Plain(s[i])
    ensures Escaped(s, q) == s
  {
    if s != [] {
      assert Plain(s[0]);
      EscapedPlain(s[1..], q);
      assert s == [s[0]] + s[1..];
    }
  }

  /** A string of plain characters is shown between single quotes, unchanged. */
  lemma StrReprPlain(s: string)
    requires forall i :: 0 <= i < |s| ==> Plain(s[i])
    ensures StrRepr(s) == "'" + s + "'"
  {
    assert '\'' !in s by {
      forall i | 0 <= i < |s| ensures s[i] != '\'' { assert Plain(s[i]); }
    }
    EscapedPlain(s, '\'');
  }

  /** A string holding an apostrophe is shown in double quotes, and nothing is escaped. */
  lemma StrReprApostrophe()
    ensures StrRepr("it's") == "\"it's\""
  {
  }

  /** A string holding both quotes keeps single quotes and escapes the single one. */
  lemma StrReprBothQuotes()
    ensures StrRepr("a'\"") == "'a\\'\"'"
  {
  }

  /** Python's `repr` of a value as printed inside a list or a dict. */
  function Repr(v: Value): string
    decreases v
  {
    match v
    case Str(s) => StrRepr(s)
    case Arr(items) => "[" + Join(", ", seq(|items|, i requires 0 <= i < |items| => Repr(items[i]))) + "]"
    case Obj(fields) =>
      "{" + Join(", ", seq(|fields|, i requires 0 <= i < |fields| =>
                    StrRepr(fields[i].0) + ": " + Repr(fields[i].1))) + "}"
    case _ => ScalarText(v)
  }

  /** Python's `str` of a value, which an f-string substitutes. */
  function Render(v: Value): string {
    match v
    case Str(s) => s
    case Arr(_) => Repr(v)
    case Obj(_) => Repr(v)
    case _ => ScalarText(v)
  }
}
