/**
 * The command line: each input line is stripped and split into words the way Python's
 * `str.strip()` and `str.split()` do, and the first word selects a command.
 */
module Cli {
  import opened Wrappers
  import opened Text

  /**
   * The code points Python's `str.isspace` accepts, as ten inclusive ranges: the
   * separators `strip()` and `split()` use.
   */
  function SeparatorRange(k: nat): (int, int)
    requires k < 10
  {
    match k
    case 0 => (0x09, 0x0D)
    case 1 => (0x1C, 0x20)
    case 2 => (0x85, 0x85)
    case 3 => (0xA0, 0xA0)
    case 4 => (0x1680, 0x1680)
    case 5 => (0x2000, 0x200A)
    case 6 => (0x2028, 0x2029)
    case 7 => (0x202F, 0x202F)
    case 8 => (0x205F, 0x205F)
    case _ => (0x3000, 0x3000)
  }

  /** Whether code point `n` lies in one of the ranges from the `k`-th on. */
  predicate InRanges(n: int, k: nat)
    requires k <= 10
    decreases 10 - k
  {
    k < 10 && (SeparatorRange(k).0 <= n <= SeparatorRange(k).1 || InRanges(n, k + 1))
  }

  predicate IsSpace(c: char) {
    InRanges(c as int, 0)
  }

  lemma {:induction false} InRangesExactly(n: int, k: nat)
    requires k <= 10
    ensures InRanges(n, k) <==> exists i :: k <= i < 10 && SeparatorRange(i).0 <= n <= SeparatorRange(i).1
    decreases 10 - k
  {
    if k < 10 {
      InRangesExactly(n, k + 1);
    }
  }

  /** The space character separates words. */
  lemma SpaceSeparates()
    ensures IsSpace(' ')
  {
    InRangesExactly(' ' as int, 0);
    assert SeparatorRange(1) == (0x1C, 0x20);
  }

  /** Visible ASCII characters (letters, digits, signs, underscore) do not separate words. */
  lemma VisibleAscii(c: char)
    requires 0x21 <= c as int <= 0x7E
    ensures !IsSpace(c)
  {
    InRangesExactly(c as int, 0);
  }

  predicate NoSpace(s: string) {
    forall i :: 0 <= i < |s| ==> !IsSpace(s[i])
  }

  /** A word as `split()` produces it: non-empty and without separators. */
  predicate IsWord(s: string) {
    |s| > 0 && NoSpace(s)
  }

  /** `s.lstrip()`. */
  function TrimLeft(s: string): (t: string)
    ensures |t| <= |s|
    ensures t == [] || !IsSpace(t[0])
  {
    if s != [] && IsSpace(s[0]) then TrimLeft(s[1..]) else s
  }

  /** What `lstrip()` keeps is a suffix of its input. */
  lemma {:induction false} TrimLeftSuffix(s: string)
    ensures TrimLeft(s) == s[|s| - |TrimLeft(s)|..]
  {
    if s != [] && IsSpace(s[0]) {
      TrimLeftSuffix(s[1..]);
    }
  }

  /** What `lstrip()` removes is separators only. */
  lemma {:induction false} TrimLeftDrops(s: string)
    ensures forall i :: 0 <= i < |s| - |TrimLeft(s)| ==> IsSpace(s[i])
  {
    if s != [] && IsSpace(s[0]) {
      TrimLeftDrops(s[1..]);
      forall i | 1 <= i < |s| - |TrimLeft(s)| ensures IsSpace(s[i]) {
        assert s[i] == s[1..][i - 1];
      }
    }
  }

  /** `s.rstrip()`. */
  function TrimRight(s: string): (t: string)
    ensures |t| <= |s|
    ensures t == [] || !IsSpace(t[|t| - 1])
  {
    if s != [] && IsSpace(s[|s| - 1]) then TrimRight(s[..|s| - 1]) else s
  }

  /** What `rstrip()` keeps is a prefix of its input. */
  lemma {:induction false} TrimRightPrefix(s: string)
    ensures TrimRight(s) == s[..|TrimRight(s)|]
  {
    if s != [] && IsSpace(s[|s| - 1]) {
      TrimRightPrefix(s[..|s| - 1]);
    }
  }

  /** What `rstrip()` removes is separators only. */
  lemma {:induction false} TrimRightDrops(s: string)
    ensures forall i :: |TrimRight(s)| <= i < |s| ==> IsSpace(s[i])
  {
    if s != [] && IsSpace(s[|s| - 1]) {
      TrimRightDrops(s[..|s| - 1]);
      forall i | |TrimRight(s)| <= i < |s| - 1 ensures IsSpace(s[i]) {
        assert s[i] == s[..|s| - 1][i];
      }
    }
  }

  /** `s.strip()`. */
  function Strip(s: string): string {
    TrimRight(TrimLeft(s))
  }

  /** The longest prefix of `t` without a separator. */
  function Word(t: string): (w: string)
    ensures |w| <= |t| && w == t[..|w|] && NoSpace(w)
    ensures |w| == |t| || IsSpace(t[|w|])
    ensures t != [] && !IsSpace(t[0]) ==> |w| > 0
  {
    if t == [] || IsSpace(t[0]) then [] else [t[0]] + Word(t[1..])
  }

  /** `s.split()`: the maximal runs of non-separators, in order. */
  function Tokens(s: string): seq<string>
    decreases |s|
  {
    var t := TrimLeft(s);
    if t == [] then [] else
      var w := Word(t);
      var rest := t[|w|..];
      assert |rest| < |s|;
      [w] + Tokens(rest)
  }

  /** Every token is a word: non-empty and free of separators. */
  lemma {:induction false} TokensAreWords(s: string)
    ensures forall i :: 0 <= i < |Tokens(s)| ==> IsWord(Tokens(s)[i])
    decreases |s|
  {
    var t := TrimLeft(s);
    if t != [] {
      var w := Word(t);
      var rest := t[|w|..];
      var ws := Tokens(rest);
      TokensAreWords(rest);
      assert Tokens(s) == [w] + ws;
      forall i | 0 <= i < |Tokens(s)| ensures IsWord(Tokens(s)[i]) {
        if i > 0 {
          assert Tokens(s)[i] == ws[i - 1];
        }
      }
    }
  }

  /**
   * The most decimal digits `int(s)` converts: Python's default
   * `sys.int_info.default_max_str_digits`, refused beyond with a `ValueError`.
   */
  const MaxStrDigits := 4300

  /**
   * Python's `int(s)` for a string without surrounding whitespace: an optional sign, then
   * decimal digits, with single underscores allowed between digits, and no more than
   * `MaxStrDigits` digits.
   */
  function ParseInt(s: string): (r: Option<int>)
    ensures r.Some? ==> |s| > 0
  {
    var signed := |s| > 0 && (s[0] == '+' || s[0] == '-');
    var body := if signed then s[1..] else s;
    if !IsNumeral(body) || |DropUnderscores(body)| > MaxStrDigits then None
    else
      var v: int := DigitsValue(DropUnderscores(body));
      Some(if signed && s[0] == '-' then -v else v)
  }

  /** Digits with single underscores between them. */
  predicate IsNumeral(s: string) {
    && |s| > 0 && IsDigit(s[0]) && IsDigit(s[|s| - 1])
    && (forall i :: 0 <= i < |s| ==> IsDigit(s[i]) || s[i] == '_')
    && (forall i :: 0 <= i < |s| - 1 && s[i] == '_' ==> IsDigit(s[i + 1]))
  }

  function DropUnderscores(s: string): (d: string)
    ensures (forall i :: 0 <= i < |s| ==> IsDigit(s[i]) || s[i] == '_') ==>
            forall i :: 0 <= i < |d| ==> IsDigit(d[i])
    ensures (forall i :: 0 <= i < |s| ==> IsDigit(s[i])) ==> d == s
  {
    if s == [] then []
    else if s[0] == '_' then DropUnderscores(s[1..])
    else [s[0]] + DropUnderscores(s[1..])
  }

  /** What one input line asks for. */
  datatype Command =
    | Skip
    | ConnectUsage
    | BadPort
    | Connect(host: string, port: int)
    | SendUsage
    | Send(recipient: string, text: string)
    | List
    | Help
    | Exit
    | Unknown

  /**
   * The decision on the words of a non-blank line: the first word picks the command, and
   * words past the ones a command uses are ignored.
   */
  function Decide(tokens: seq<string>): (c: Command)
    requires |tokens| > 0
    ensures !c.Skip?
    ensures c.ConnectUsage? <==> tokens[0] == "connect" && |tokens| < 3
    ensures c.BadPort? <==> tokens[0] == "connect" && |tokens| >= 3 && ParseInt(tokens[2]).None?
    ensures c.Connect? <==> tokens[0] == "connect" && |tokens| >= 3 && ParseInt(tokens[2]).Some?
    ensures c.Connect? ==> c.host == tokens[1] && ParseInt(tokens[2]) == Some(c.port)
    ensures c.SendUsage? <==> tokens[0] == "send" && |tokens| < 3
    ensures c.Send? <==> tokens[0] == "send" && |tokens| >= 3
    ensures c.Send? ==> c.recipient == tokens[1] && c.text == Join(" ", tokens[2..])
    ensures c.List? <==> tokens[0] == "list"
    ensures c.Help? <==> tokens[0] == "help"
    ensures c.Exit? <==> tokens[0] == "exit"
    ensures c.Unknown? <==>
      tokens[0] != "connect" && tokens[0] != "send" && tokens[0] != "list" && tokens[0] != "help" && tokens[0] != "exit"
  {
    match tokens[0]
    case "connect" =>
      if |tokens| < 3 then ConnectUsage
      else (match ParseInt(tokens[2])
            case None => BadPort
            case Some(p) => Connect(tokens[1], p))
    case "send" =>
      if |tokens| < 3 then SendUsage else Send(tokens[1], Join(" ", tokens[2..]))
    case "list" => List
    case "help" => Help
    case "exit" => Exit
    case _ => Unknown
  }

  /**
   * The decision on one input line: a line without words is skipped, any other is decided
   * on its words, so surrounding separators and the length of each run between words
   * make no difference.
   */
  function ParseLine(line: string): (c: Command)
    ensures c == if Tokens(line) == [] then Skip else Decide(Tokens(line))
  {
    TokensOfStrip(line);
    var command := Strip(line);
    if command == [] then Skip
    else
      StrippedHasWord(line);
      Decide(Tokens(command))
  }

  /** The fixed message a command prints, if it prints one. */
  function Reply(c: Command): Option<string> {
    match c
    case ConnectUsage => Some("Usage: connect <ip> <port>")
    case BadPort => Some("Invalid port number.")
    case SendUsage => Some("Usage: send <username> <message>")
    case Unknown => Some("Unknown command. Type 'help' for a list of commands.")
    case Exit => Some("Exiting...")
    case _ => None
  }

  lemma TrimLeftWord(s: string)
    requires s == [] || !IsSpace(s[0])
    ensures TrimLeft(s) == s
  {
  }

  lemma StrippedHasWord(line: string)
    requires Strip(line) != []
    ensures |Tokens(Strip(line))| > 0
  {
    var t := Strip(line);
    TrimRightPrefix(TrimLeft(line));
    assert t[0] == TrimLeft(line)[0];
    TrimLeftWord(t);
  }

  /** A line is skipped exactly when it is blank: every character is a separator. */
  lemma {:induction false} SkipIffBlank(line: string)
    ensures ParseLine(line) == Skip <==> forall i :: 0 <= i < |line| ==> IsSpace(line[i])
  {
    var l := TrimLeft(line);
    if Strip(line) == [] {
      TrimLeftDrops(line);
      if l != [] {
        TrimRightKeepsHead(l);
      }
    } else {
      StrippedHasWord(line);
      TrimLeftSuffix(line);
      var k := |line| - |l|;
      assert l[0] == line[k] && !IsSpace(line[k]);
    }
  }

  lemma TrimRightKeepsHead(s: string)
    requires s != [] && !IsSpace(s[0])
    ensures TrimRight(s) != []
  {
    TrimRightDrops(s);
  }

  lemma StripWords(s: string)
    requires |s| > 0 && !IsSpace(s[0]) && !IsSpace(s[|s| - 1])
    ensures Strip(s) == s
  {
    TrimLeftWord(s);
  }

  lemma WordOf(w: string, rest: string)
    requires IsWord(w) && (rest == [] || IsSpace(rest[0]))
    ensures Word(w + rest) == w
    decreases |w|
  {
    if |w| > 1 {
      assert (w + rest)[1..] == w[1..] + rest;
      WordOf(w[1..], rest);
    } else {
      assert (w + rest)[1..] == rest;
    }
  }

  /** Joining words with single spaces and splitting again gives back the words. */
  lemma {:induction false} TokensOfJoin(ws: seq<string>)
    requires forall i :: 0 <= i < |ws| ==> IsWord(ws[i])
    ensures Tokens(Join(" ", ws)) == ws
    decreases |ws|
  {
    if ws == [] {
    } else if |ws| == 1 {
      TokensOfWord(ws[0]);
    } else {
      var w, rest := ws[0], ws[1..];
      assert IsWord(w);
      assert forall i :: 0 <= i < |rest| ==> IsWord(rest[i]) by {
        forall i | 0 <= i < |rest| ensures IsWord(rest[i]) { assert rest[i] == ws[i + 1]; }
      }
      calc {
        Tokens(Join(" ", ws));
        { JoinCons(ws); }
        Tokens(w + (" " + Join(" ", rest)));
        { TokensAfterWord(w, Join(" ", rest)); }
        [w] + Tokens(Join(" ", rest));
        { TokensOfJoin(rest); }
        [w] + rest;
      }
    }
  }

  lemma JoinCons(ws: seq<string>)
    requires |ws| > 1
    ensures Join(" ", ws) == ws[0] + (" " + Join(" ", ws[1..]))
  {
  }

  lemma TokensOfWord(w: string)
    requires IsWord(w)
    ensures Tokens(w) == [w]
  {
    assert w + [] == w;
    TokensCons(w, []);
    assert Tokens([]) == [];
  }

  lemma TokensAfterWord(w: string, j: string)
    requires IsWord(w)
    ensures Tokens(w + (" " + j)) == [w] + Tokens(j)
  {
    SpaceSeparates();
    TokensCons(w, " " + j);
    TokensSpace(j);
  }

  /** A word followed by a separator or the end is the first token. */
  lemma TokensCons(w: string, rest: string)
    requires IsWord(w) && (rest == [] || IsSpace(rest[0]))
    ensures Tokens(w + rest) == [w] + Tokens(rest)
  {
    var s := w + rest;
    TrimLeftWord(s);
    WordOf(w, rest);
    assert s[|w|..] == rest;
  }

  /** A leading separator does not change the tokens. */
  lemma TokensSpace(s: string)
    ensures Tokens(" " + s) == Tokens(s)
  {
    SpaceSeparates();
    assert (" " + s)[1..] == s;
    assert TrimLeft(" " + s) == TrimLeft(s);
  }

  /** A join of words starts and ends with a non-separator. */
  lemma JoinStartsWithWord(ws: seq<string>)
    requires |ws| > 0 && forall i :: 0 <= i < |ws| ==> IsWord(ws[i])
    ensures var j := Join(" ", ws); |j| > 0 && !IsSpace(j[0]) && !IsSpace(j[|j| - 1])
    decreases |ws|
  {
    assert IsWord(ws[0]);
    if |ws| > 1 {
      JoinStartsWithWord(ws[1..]);
      var j := Join(" ", ws[1..]);
      assert Join(" ", ws) == ws[0] + (" " + j);
    }
  }

  lemma DecimalIsWord(n: int)
    ensures IsWord(Decimal(n))
  {
    var d := NatDigits(if n < 0 then -n else n);
    assert forall i :: 0 <= i < |d| ==> IsDigit(d[i]) && !IsSpace(d[i]);
    if n < 0 {
      var s := Decimal(n);
      assert s == "-" + d;
      assert forall i :: 1 <= i < |s| ==> s[i] == d[i - 1];
    }
  }

  /** `int(str(n)) == n`, as long as `n` has no more than `MaxStrDigits` digits. */
  lemma ParseIntDecimal(n: int)
    ensures ParseInt(Decimal(n)) == if DigitCount(Decimal(n)) <= MaxStrDigits then Some(n) else None
  {
    var m: nat := if n < 0 then -n else n;
    var d := NatDigits(m);
    NatDigitsValue(m);
    NumeralOfDigits(d);
    DigitCountDrop(d);
    if n < 0 {
      var s := Decimal(n);
      assert s[0] == '-' && s[1..] == d;
      assert DigitCount(s) == DigitCount(d);
      if |d| <= MaxStrDigits {
        ParseMinus(s);
      } else {
        ParseMinusLong(s);
      }
    } else {
      assert Decimal(n) == d;
      ParseUnsigned(d);
    }
  }

  /** The number of decimal digits in a string. */
  function DigitCount(s: string): nat {
    if s == [] then 0 else (if IsDigit(s[0]) then 1 else 0) + DigitCount(s[1..])
  }

  /** Dropping the underscores of digits and underscores leaves exactly the digits. */
  lemma {:induction false} DigitCountDrop(s: string)
    requires forall i :: 0 <= i < |s| ==> IsDigit(s[i]) || s[i] == '_'
    ensures |DropUnderscores(s)| == DigitCount(s)
  {
    if s != [] {
      assert forall i :: 0 <= i < |s[1..]| ==> IsDigit(s[1..][i]) || s[1..][i] == '_' by {
        forall i | 0 <= i < |s[1..]| ensures IsDigit(s[1..][i]) || s[1..][i] == '_' {
          assert s[1..][i] == s[i + 1];
        }
      }
      DigitCountDrop(s[1..]);
    }
  }

  lemma NumeralOfDigits(d: string)
    requires |d| > 0 && forall i :: 0 <= i < |d| ==> IsDigit(d[i])
    ensures IsNumeral(d) && DropUnderscores(d) == d
  {
  }

  lemma ParseUnsigned(d: string)
    requires IsNumeral(d)
    ensures ParseInt(d) ==
      if |DropUnderscores(d)| <= MaxStrDigits then Some(DigitsValue(DropUnderscores(d))) else None
  {
  }

  lemma ParseMinus(s: string)
    requires |s| > 0 && s[0] == '-' && IsNumeral(s[1..]) && |DropUnderscores(s[1..])| <= MaxStrDigits
    ensures ParseInt(s) == Some(0 - DigitsValue(DropUnderscores(s[1..])))
  {
  }

  lemma ParseMinusLong(s: string)
    requires |s| > 0 && s[0] == '-' && IsNumeral(s[1..]) && |DropUnderscores(s[1..])| > MaxStrDigits
    ensures ParseInt(s) == None
  {
  }

  /** Underscores between digits are accepted and ignored, as Python's `int` does. */
  lemma ParseIntUnderscore()
    ensures ParseInt("5_000") == Some(5000)
  {
    assert IsNumeral("5_000");
    ParseUnsigned("5_000");
    DropInFiveThousand();
    FiveThousand();
  }

  lemma DropInFiveThousand()
    ensures DropUnderscores("5_000") == "5000"
  {
    var tail := "000";
    assert forall i :: 0 <= i < |tail| ==> IsDigit(tail[i]);
    assert DropUnderscores("_" + tail) == tail by { assert ("_" + tail)[1..] == tail; }
    assert DropUnderscores("5" + ("_" + tail)) == "5" + tail by {
      assert ("5" + ("_" + tail))[1..] == "_" + tail;
    }
    assert "5_000" == "5" + ("_" + tail) && "5000" == "5" + tail;
  }

  lemma FiveThousand()
    ensures DigitsValue("5000") == 5000
  {
    assert "5000"[..3] == "500" && "500"[..2] == "50" && "50"[..1] == "5" && "5"[..0] == "";
  }

  /** A lone, leading, trailing or doubled underscore, or any other character, is refused. */
  lemma ParseIntRefuses()
    ensures ParseInt("") == None && ParseInt("-") == None && ParseInt("_5") == None
    ensures ParseInt("5_") == None && ParseInt("5__0") == None && ParseInt("12ab") == None
  {
    assert !IsNumeral("5__0") by { assert "5__0"[1] == '_' && !IsDigit("5__0"[2]); }
    assert !IsNumeral("12ab") by { assert !IsDigit("12ab"[3]); }
    assert "-"[1..] == "";
  }

  /**
   * The literals `int` accepts, character by character: an optional leading sign, then
   * digits ending in a digit, where each underscore stands between two digits.
   */
  predicate IntLiteral(s: string) {
    |s| > 0 && IsDigit(s[|s| - 1]) && forall i :: 0 <= i < |s| ==> LiteralChar(s, i)
  }

  predicate LiteralChar(s: string, i: int)
    requires 0 <= i < |s|
  {
    || IsDigit(s[i])
    || (i == 0 && (s[i] == '+' || s[i] == '-'))
    || (s[i] == '_' && 0 < i < |s| - 1 && IsDigit(s[i - 1]) && IsDigit(s[i + 1]))
  }

  /** `int(s)` succeeds on exactly the literals of no more than `MaxStrDigits` digits. */
  lemma ParseIntAccepts(s: string)
    ensures ParseInt(s).Some? <==> IntLiteral(s) && DigitCount(s) <= MaxStrDigits
  {
    var signed := |s| > 0 && (s[0] == '+' || s[0] == '-');
    var body := s[if signed then 1 else 0..];
    LiteralIsNumeral(s);
    if IsNumeral(body) {
      NumeralDigitCount(s);
    }
  }

  /** The literals are the numerals, after an optional sign. */
  lemma LiteralIsNumeral(s: string)
    ensures IntLiteral(s) <==> IsNumeral(s[if |s| > 0 && (s[0] == '+' || s[0] == '-') then 1 else 0..])
  {
    var signed := |s| > 0 && (s[0] == '+' || s[0] == '-');
    var o := if signed then 1 else 0;
    var body := s[o..];
    if IntLiteral(s) {
      assert |s| > o;
      assert LiteralChar(s, o);
      assert IsDigit(body[0]) by { assert body[0] == s[o]; }
      assert IsDigit(body[|body| - 1]) by { assert body[|body| - 1] == s[|s| - 1]; }
      forall j | 0 <= j < |body| ensures IsDigit(body[j]) || body[j] == '_' {
        assert LiteralChar(s, j + o);
        assert body[j] == s[j + o];
      }
      forall j | 0 <= j < |body| - 1 && body[j] == '_' ensures IsDigit(body[j + 1]) {
        assert LiteralChar(s, j + o);
        assert body[j] == s[j + o] && body[j + 1] == s[j + o + 1];
      }
      assert IsNumeral(body);
    }
    if IsNumeral(body) {
      forall i | 0 <= i < |s| ensures LiteralChar(s, i) {
        if i >= o {
          var j := i - o;
          assert s[i] == body[j];
          if body[j] == '_' {
            assert 0 < j < |body| - 1;
            assert body[j - 1] == s[i - 1] && body[j + 1] == s[i + 1];
            assert !IsDigit(body[(j - 1) + 1]);
            assert IsDigit(body[j - 1]) || body[j - 1] == '_';
          }
        }
      }
      assert s[|s| - 1] == body[|body| - 1];
    }
  }

  /** The digits `int` counts are those of the numeral after the sign. */
  lemma NumeralDigitCount(s: string)
    requires IsNumeral(s[if |s| > 0 && (s[0] == '+' || s[0] == '-') then 1 else 0..])
    ensures DigitCount(s) == |DropUnderscores(s[if |s| > 0 && (s[0] == '+' || s[0] == '-') then 1 else 0..])|
  {
    var o := if |s| > 0 && (s[0] == '+' || s[0] == '-') then 1 else 0;
    DigitCountDrop(s[o..]);
    if o == 1 {
      assert !IsDigit(s[0]);
    }
  }

  /** Dropping the underscores of a numeral keeps its first digit. */
  lemma DropUnderscoresHead(s: string)
    requires |s| > 0 && s[0] != '_'
    ensures DropUnderscores(s) == [s[0]] + DropUnderscores(s[1..])
  {
  }

  lemma ParseSigned(s: string)
    requires |s| > 0 && (s[0] == '+' || s[0] == '-') && IsNumeral(s[1..])
    ensures ParseInt(s) ==
      if |DropUnderscores(s[1..])| <= MaxStrDigits
      then Some(SignOf(s[0]) * DigitsValue(DropUnderscores(s[1..])))
      else None
  {
  }

  /** Underscores change nothing: whatever `int` accepts reads the same without them. */
  lemma ParseIntIgnoresUnderscores(s: string)
    ensures ParseInt(s).Some? ==> ParseInt(DropUnderscores(s)) == ParseInt(s)
  {
    if ParseInt(s).Some? {
      if |s| > 0 && (s[0] == '+' || s[0] == '-') {
        SignedIgnoresUnderscores(s);
      } else {
        UnsignedIgnoresUnderscores(s);
      }
    }
  }

  lemma UnsignedIgnoresUnderscores(s: string)
    requires IsNumeral(s)
    ensures ParseInt(DropUnderscores(s)) == ParseInt(s)
  {
    var d := DropUnderscores(s);
    DropUnderscoresHead(s);
    NumeralOfDigits(d);
    ParseUnsigned(d);
    ParseUnsigned(s);
  }

  lemma SignedIgnoresUnderscores(s: string)
    requires |s| > 0 && (s[0] == '+' || s[0] == '-') && IsNumeral(s[1..])
    ensures ParseInt(DropUnderscores(s)) == ParseInt(s)
  {
    SignedDrop(s);
    ParseSigned(s);
    ParseSigned(DropUnderscores(s));
  }

  function SignOf(c: char): int {
    if c == '-' then -1 else 1
  }

  /** Dropping the underscores of a signed numeral keeps the sign and leaves digits after it. */
  lemma SignedDrop(s: string)
    requires |s| > 0 && (s[0] == '+' || s[0] == '-') && IsNumeral(s[1..])
    ensures var t := DropUnderscores(s);
      && |t| > 0 && t[0] == s[0] && t[1..] == DropUnderscores(s[1..])
      && IsNumeral(t[1..]) && DropUnderscores(t[1..]) == t[1..]
  {
    var d := DropUnderscores(s[1..]);
    DropUnderscoresHead(s[1..]);
    NumeralOfDigits(d);
    DropUnderscoresHead(s);
    assert DropUnderscores(s)[1..] == d;
  }

  /**
   * A line typed as `connect <host> <port>` asks to dial that host and port, unless the
   * port has more digits than `int` converts.
   */
  lemma ConnectRoundTrip(host: string, port: int)
    requires IsWord(host)
    ensures ParseLine("connect " + host + " " + Decimal(port)) ==
      if DigitCount(Decimal(port)) <= MaxStrDigits then Connect(host, port) else BadPort
  {
    DecimalIsWord(port);
    CommandWords();
    var ws := ["connect", host, Decimal(port)];
    calc {
      ParseLine("connect " + host + " " + Decimal(port));
      { assert "connect " == "connect" + " "; JoinPrefix("connect", host, [Decimal(port)]); }
      ParseLine(Join(" ", ws));
      { ParseLineOfJoin(ws); }
      Decide(ws);
      { ParseIntDecimal(port); }
      if DigitCount(Decimal(port)) <= MaxStrDigits then Connect(host, port) else BadPort;
    }
  }

  /** A line typed as `send <name> <words>`, one space apart, sends the words as typed. */
  lemma SendRoundTrip(recipient: string, words: seq<string>)
    requires IsWord(recipient) && |words| > 0
    requires forall i :: 0 <= i < |words| ==> IsWord(words[i])
    ensures ParseLine("send " + recipient + " " + Join(" ", words)) == Send(recipient, Join(" ", words))
  {
    var ws := ["send", recipient] + words;
    SendLine(recipient, words);
    SendWords(recipient, words);
    ParseLineOfJoin(ws);
    DecideSend(ws);
    assert ws[1] == recipient && ws[2..] == words;
  }

  /** The `send` line is its words joined by single spaces. */
  lemma SendLine(recipient: string, words: seq<string>)
    requires |words| > 0
    ensures "send " + recipient + " " + Join(" ", words) == Join(" ", ["send", recipient] + words)
  {
    assert "send " == "send" + " ";
    JoinPrefix("send", recipient, words);
  }

  lemma SendWords(recipient: string, words: seq<string>)
    requires IsWord(recipient)
    requires forall i :: 0 <= i < |words| ==> IsWord(words[i])
    ensures forall i :: 0 <= i < |["send", recipient] + words| ==> IsWord((["send", recipient] + words)[i])
  {
    CommandWords();
    AllWords(["send", recipient], words);
  }

  /** Two words and a non-empty tail joined by spaces, written out. */
  lemma JoinPrefix(a: string, b: string, rest: seq<string>)
    requires |rest| > 0
    ensures Join(" ", [a, b] + rest) == a + " " + b + " " + Join(" ", rest)
  {
    TailsOfPair(a, b, rest);
    JoinFront([a, b] + rest, [b] + rest);
    JoinFront([b] + rest, rest);
    SpacedFour(a, b, Join(" ", rest));
  }

  lemma TailsOfPair(a: string, b: string, rest: seq<string>)
    ensures ([a, b] + rest)[0] == a && ([a, b] + rest)[1..] == [b] + rest
    ensures ([b] + rest)[0] == b && ([b] + rest)[1..] == rest
  {
  }

  lemma JoinFront(ws: seq<string>, rest: seq<string>)
    requires |rest| > 0 && |ws| > 0 && ws[1..] == rest
    ensures Join(" ", ws) == ws[0] + " " + Join(" ", rest)
  {
  }

  lemma SpacedFour(a: string, b: string, j: string)
    ensures (a + " ") + ((b + " ") + j) == a + " " + b + " " + j
  {
    Associative(a + " ", b + " ", j);
    Associative(a + " ", b, " ");
  }

  lemma AllWords(a: seq<string>, b: seq<string>)
    requires forall i :: 0 <= i < |a| ==> IsWord(a[i])
    requires forall i :: 0 <= i < |b| ==> IsWord(b[i])
    ensures forall i :: 0 <= i < |a + b| ==> IsWord((a + b)[i])
  {
    forall i | 0 <= i < |a + b| ensures IsWord((a + b)[i]) {
      if i >= |a| { assert (a + b)[i] == b[i - |a|]; }
    }
  }

  lemma DecideSend(ws: seq<string>)
    requires |ws| >= 3 && ws[0] == "send"
    ensures Decide(ws) == Send(ws[1], Join(" ", ws[2..]))
  {
  }

  /** The command words are words. */
  lemma CommandWords()
    ensures IsWord("connect") && IsWord("send")
  {
    forall c | c in "connect" + "send" ensures !IsSpace(c) {
      VisibleAscii(c);
    }
  }

  /** A line of words separated by single spaces is decided on exactly those words. */
  lemma ParseLineOfJoin(ws: seq<string>)
    requires |ws| > 0 && forall i :: 0 <= i < |ws| ==> IsWord(ws[i])
    ensures ParseLine(Join(" ", ws)) == Decide(ws)
  {
    JoinStartsWithWord(ws);
    StripWords(Join(" ", ws));
    TokensOfJoin(ws);
  }

  /** A string of separators only. */
  predicate Blank(s: string) {
    forall i :: 0 <= i < |s| ==> IsSpace(s[i])
  }

  /** Separators in front of a string change neither `lstrip()` nor `split()`. */
  lemma {:induction false} TokensSpaces(sp: string, s: string)
    requires Blank(sp)
    ensures TrimLeft(sp + s) == TrimLeft(s)
    ensures Tokens(sp + s) == Tokens(s)
  {
    if sp == [] {
      assert sp + s == s;
    } else {
      assert IsSpace(sp[0]) && (sp + s)[0] == sp[0];
      assert (sp + s)[1..] == sp[1..] + s;
      TokensSpaces(sp[1..], s);
    }
  }

  /** A string is what `lstrip()` removes followed by what it keeps. */
  lemma LeadingBlank(s: string)
    ensures var t := TrimLeft(s); s == s[..|s| - |t|] + t && Blank(s[..|s| - |t|])
  {
    TrimLeftSuffix(s);
    TrimLeftDrops(s);
  }

  /** Separators after a string do not change `split()`. */
  lemma {:induction false} TokensTrailing(s: string, sp: string)
    requires Blank(sp)
    ensures Tokens(s + sp) == Tokens(s)
    decreases |s|
  {
    var t := TrimLeft(s);
    LeadingBlank(s);
    var pre := s[..|s| - |t|];
    assert s + sp == pre + (t + sp);
    TokensSpaces(pre, t + sp);
    TokensSpaces(pre, t);
    if t == [] {
      BlankTrailing(sp);
    } else {
      var w := Word(t);
      var r := t[|w|..];
      WordSplits(t);
      TokensTrailing(r, sp);
      SeparatorAfter(r, sp);
      TokensCons(w, r);
      TokensCons(w, r + sp);
      Associative(w, r, sp);
    }
  }

  lemma BlankTrailing(sp: string)
    requires Blank(sp)
    ensures Tokens([] + sp) == Tokens([])
  {
    TokensSpaces(sp, []);
    assert sp + [] == sp == [] + sp;
  }

  /** A string is its first word followed by the rest. */
  lemma WordSplits(t: string)
    ensures t == Word(t) + t[|Word(t)|..]
  {
    var w := Word(t);
    assert w == t[..|w|];
    assert t[..|w|] + t[|w|..] == t;
  }

  /** What follows a word, with separators appended, still starts with a separator or is empty. */
  lemma SeparatorAfter(r: string, sp: string)
    requires r == [] || IsSpace(r[0])
    requires Blank(sp)
    ensures r + sp == [] || IsSpace((r + sp)[0])
  {
    if r == [] {
      assert r + sp == sp;
    } else {
      assert (r + sp)[0] == r[0];
    }
  }

  /** `command.split()` on the stripped line gives the words of the line itself. */
  lemma TokensOfStrip(line: string)
    ensures Tokens(Strip(line)) == Tokens(line)
  {
    var t := TrimLeft(line);
    LeadingBlank(line);
    TokensSpaces(line[..|line| - |t|], t);
    TrailingBlank(t);
    var kept := TrimRight(t);
    TokensTrailing(kept, t[|kept|..]);
  }

  /** A string is what `rstrip()` keeps followed by what it removes. */
  lemma TrailingBlank(s: string)
    ensures var t := TrimRight(s); s == t + s[|t|..] && Blank(s[|t|..])
  {
    TrimRightPrefix(s);
    TrimRightDrops(s);
    var t := TrimRight(s);
    forall i | 0 <= i < |s[|t|..]| ensures IsSpace(s[|t|..][i]) {
      assert s[|t|..][i] == s[|t| + i];
    }
  }

  /**
   * Words with separator runs around and between them: `gaps[i]` stands before `ws[i]`
   * and the last gap after the last word.
   */
  function Spaced(ws: seq<string>, gaps: seq<string>): string
    requires |gaps| == |ws| + 1
  {
    if ws == [] then gaps[0] else gaps[0] + (ws[0] + Spaced(ws[1..], gaps[1..]))
  }

  /** Every gap is separators only, and the gaps between two words are not empty. */
  predicate Gaps(ws: seq<string>, gaps: seq<string>) {
    && |gaps| == |ws| + 1
    && (forall i :: 0 <= i < |gaps| ==> Blank(gaps[i]))
    && forall i :: 0 < i < |ws| ==> gaps[i] != []
  }

  /** However the words are spaced, `split()` gives back the words. */
  lemma {:induction false} TokensOfSpaced(ws: seq<string>, gaps: seq<string>)
    requires Gaps(ws, gaps) && forall i :: 0 <= i < |ws| ==> IsWord(ws[i])
    ensures Tokens(Spaced(ws, gaps)) == ws
    decreases |ws|
  {
    assert Blank(gaps[0]);
    if ws == [] {
      TokensSpaces(gaps[0], []);
      assert gaps[0] + [] == gaps[0];
    } else {
      var rest := Spaced(ws[1..], gaps[1..]);
      assert Gaps(ws[1..], gaps[1..]) by {
        forall i | 0 < i < |ws[1..]| ensures gaps[1..][i] != [] { assert gaps[1..][i] == gaps[i + 1]; }
      }
      assert forall i :: 0 <= i < |ws[1..]| ==> IsWord(ws[1..][i]) by {
        forall i | 0 <= i < |ws[1..]| ensures IsWord(ws[1..][i]) { assert ws[1..][i] == ws[i + 1]; }
      }
      assert rest == [] || IsSpace(rest[0]) by {
        if gaps[1] != [] {
          assert IsSpace(gaps[1][0]);
          if ws[1..] != [] { assert rest[0] == gaps[1][0]; }
        }
      }
      assert IsWord(ws[0]);
      TokensSpaces(gaps[0], ws[0] + rest);
      TokensCons(ws[0], rest);
      TokensOfSpaced(ws[1..], gaps[1..]);
    }
  }

  /**
   * A `send` line with any runs of separators around and between its words sends the
   * words of the message joined by single spaces.
   */
  lemma SendSpaced(recipient: string, words: seq<string>, gaps: seq<string>)
    requires IsWord(recipient) && |words| > 0
    requires forall i :: 0 <= i < |words| ==> IsWord(words[i])
    requires Gaps(["send", recipient] + words, gaps)
    ensures ParseLine(Spaced(["send", recipient] + words, gaps)) == Send(recipient, Join(" ", words))
  {
    var ws := ["send", recipient] + words;
    SendWords(recipient, words);
    TokensOfSpaced(ws, gaps);
    assert ws[1] == recipient && ws[2..] == words;
  }

  /** The decision on each input line, in order. */
  function Decisions(lines: seq<string>): (ds: seq<Command>)
    ensures |ds| == |lines|
    ensures forall i :: 0 <= i < |lines| ==> ds[i] == ParseLine(lines[i])
  {
    seq(|lines|, i requires 0 <= i < |lines| => ParseLine(lines[i]))
  }

  /**
   * The commands the loop acts on, given the decision on each line in order: every
   * decision that is not a skip, up to and including the first `exit`.
   */
  function Acted(ds: seq<Command>): (cs: seq<Command>)
    ensures forall i :: 0 <= i < |cs| ==> !cs[i].Skip?
    ensures forall i :: 0 <= i < |cs| - 1 ==> !cs[i].Exit?
  {
    if ds == [] then []
    else if ds[0].Exit? then [Exit]
    else if ds[0].Skip? then Acted(ds[1..])
    else [ds[0]] + Acted(ds[1..])
  }

  /** The commands acted on end with `exit` exactly when some line decides `exit`. */
  lemma {:induction false} ActedExit(ds: seq<Command>)
    ensures (|Acted(ds)| > 0 && Acted(ds)[|Acted(ds)| - 1].Exit?) <==>
            exists i :: 0 <= i < |ds| && ds[i].Exit?
  {
    if ds != [] && !ds[0].Exit? {
      ActedExit(ds[1..]);
      if exists i :: 0 <= i < |ds| && ds[i].Exit? {
        var i :| 0 <= i < |ds| && ds[i].Exit?;
        assert ds[1..][i - 1] == ds[i];
      }
      if exists i :: 0 <= i < |ds[1..]| && ds[1..][i].Exit? {
        var i :| 0 <= i < |ds[1..]| && ds[1..][i].Exit?;
        assert ds[i + 1] == ds[1..][i];
      }
    }
  }

  /** One step of the loop: how the decision at position `i` contributes. */
  lemma ActedStep(ds: seq<Command>, i: nat)
    requires i < |ds|
    ensures Acted(ds[i..]) == if ds[i].Exit? then [Exit]
                              else if ds[i].Skip? then Acted(ds[i + 1..])
                              else [ds[i]] + Acted(ds[i + 1..])
  {
    assert ds[i..][0] == ds[i] && ds[i..][1..] == ds[i + 1..];
  }

  /**
   * The `while True` input loop, on the decision for each line typed: skips are passed
   * over, every other command is acted on, and the loop stops after `exit` (which shuts
   * the node down). When input runs out first the read raises and the loop ends without
   * a shutdown.
   */
  method ActOn(ds: seq<Command>) returns (acted: seq<Command>, exited: bool)
    ensures acted == Acted(ds)
    ensures exited <==> |acted| > 0 && acted[|acted| - 1].Exit?
  {
    acted := [];
    exited := false;
    var i := 0;
    while i < |ds|
      invariant i <= |ds|
      invariant acted + Acted(ds[i..]) == Acted(ds)
      invariant forall j :: 0 <= j < |acted| ==> !acted[j].Exit?
    {
      var c := ds[i];
      ActedStep(ds, i);
      if c.Exit? {
        acted := acted + [Exit];
        exited := true;
        return;
      }
      if !c.Skip? {
        acted := acted + [c];
      }
      i := i + 1;
    }
  }

  /** The input loop over the lines typed: each line is decided as it is read. */
  method CommandLoop(lines: seq<string>) returns (acted: seq<Command>, exited: bool)
    ensures acted == Acted(Decisions(lines))
    ensures exited <==> |acted| > 0 && acted[|acted| - 1].Exit?
  {
    acted, exited := ActOn(Decisions(lines));
  }
}
