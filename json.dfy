/** The JSON export of the daily logs (RFIDSystem.cpp): string escaping and
    the text of the exported document. */
module Json {
  import opened Records

  /** The seven characters `escapeJsonString` rewrites. */
  predicate NeedsEscape(c: char)
  {
    c == '"' || c == '\\' || c == '\U{8}' || c == '\U{C}' || c == '\n' || c == '\r' || c == '\t'
  }

  /** The letter that follows the backslash in the escape of `c`. */
  function EscapeLetter(c: char): char
    requires NeedsEscape(c)
  {
    match c
    case '"' => '"'
    case '\\' => '\\'
    case '\U{8}' => 'b'
    case '\U{C}' => 'f'
    case '\n' => 'n'
    case '\r' => 'r'
    case '\t' => 't'
  }

  /** What one input character becomes: a backslash and a letter for the
      seven special characters, the character itself otherwise. */
  function EscapeChar(c: char): (r: string)
    ensures NeedsEscape(c) ==> |r| == 2 && r[0] == '\\'
    ensures !NeedsEscape(c) ==> r == [c]
  {
    if NeedsEscape(c) then ['\\', EscapeLetter(c)] else [c]
  }

  /** Character-by-character escaping, as the source's loop does it. */
  function Escape(s: string): string
  {
    if s == [] then [] else EscapeChar(s[0]) + Escape(s[1..])
  }

  /** The number of characters of `s` that need escaping. */
  function CountNeedsEscape(s: string): nat
  {
    if s == [] then 0 else (if NeedsEscape(s[0]) then 1 else 0) + CountNeedsEscape(s[1..])
  }

  lemma {:induction false} EscapeAppend(a: string, b: string)
    ensures Escape(a + b) == Escape(a) + Escape(b)
  {
    if a != [] {
      assert (a + b)[0] == a[0];
      assert (a + b)[1..] == a[1..] + b;
      EscapeAppend(a[1..], b);
    } else {
      assert a + b == b;
    }
  }

  /** Each special character adds exactly one character to the output. */
  lemma {:induction false} EscapeLength(s: string)
    ensures |Escape(s)| == |s| + CountNeedsEscape(s)
  {
    if s != [] {
      EscapeLength(s[1..]);
    }
  }

  /** A string with none of the seven characters is returned unchanged. */
  lemma {:induction false} EscapeIdentity(s: string)
    requires forall i | 0 <= i < |s| :: !NeedsEscape(s[i])
    ensures Escape(s) == s
  {
    if s != [] {
      assert !NeedsEscape(s[0]);
      EscapeIdentity(s[1..]);
    }
  }

  /** The character that a backslash followed by `l` stands for. */
  function UnescapeLetter(l: char): Option<char>
  {
    match l
    case '"' => Some('"')
    case '\\' => Some('\\')
    case 'b' => Some('\U{8}')
    case 'f' => Some('\U{C}')
    case 'n' => Some('\n')
    case 'r' => Some('\r')
    case 't' => Some('\t')
    case _ => None
  }

  /** A JSON reader's decoding of the escapes `Escape` produces: the partner
      that shows escaping loses nothing. */
  function Unescape(s: string): Option<string>
  {
    if s == [] then Some([])
    else if s[0] == '\\' then
      if |s| < 2 then None
      else match (UnescapeLetter(s[1]), Unescape(s[2..]))
        case (Some(c), Some(rest)) => Some([c] + rest)
        case _ => None
    else match Unescape(s[1..])
      case Some(rest) => Some([s[0]] + rest)
      case None => None
  }

  lemma {:induction false} UnescapeEscape(s: string)
    ensures Unescape(Escape(s)) == Some(s)
  {
    if s != [] {
      UnescapeEscape(s[1..]);
      UnescapeEscapeChar(s[0], Escape(s[1..]), s[1..]);
      assert [s[0]] + s[1..] == s;
    }
  }

  /** Decoding the escape of one character followed by decodable text. */
  lemma UnescapeEscapeChar(c: char, t: string, u: string)
    requires Unescape(t) == Some(u)
    ensures Unescape(EscapeChar(c) + t) == Some([c] + u)
  {
    var e := EscapeChar(c) + t;
    if NeedsEscape(c) {
      assert e[0] == '\\' && e[1] == EscapeLetter(c) && e[2..] == t;
    } else {
      assert e[0] == c && e[1..] == t;
    }
  }

  /** `escapeJsonString`: appends the escape of each character in turn. */
  method EscapeJsonString(input: string) returns (escaped: string)
    ensures escaped == Escape(input)
    ensures |escaped| == |input| + CountNeedsEscape(input)
  {
    escaped := "";
    for i := 0 to |input|
      invariant escaped == Escape(input[..i])
    {
      var c := input[i];
      if c == '"' {
        escaped := escaped + "\\\"";
      } else if c == '\\' {
        escaped := escaped + "\\\\";
      } else if c == '\U{8}' {
        escaped := escaped + "\\b";
      } else if c == '\U{C}' {
        escaped := escaped + "\\f";
      } else if c == '\n' {
        escaped := escaped + "\\n";
      } else if c == '\r' {
        escaped := escaped + "\\r";
      } else if c == '\t' {
        escaped := escaped + "\\t";
      } else {
        escaped := escaped + [c];
      }
      assert input[..i + 1] == input[..i] + [c];
      EscapeAppend(input[..i], [c]);
    }
    assert input[..|input|] == input;
    EscapeLength(input);
  }

  /** Decimal digits of a natural number, most significant first. */
  function NatToString(n: nat): (r: string)
    ensures r != []
    ensures forall i | 0 <= i < |r| :: '0' <= r[i] <= '9'
  {
    if n < 10 then [(48 + n) as char] else NatToString(n / 10) + [(48 + n % 10) as char]
  }

  /** How `operator<<` prints an integer: an optional '-' and the digits. */
  function IntToString(n: int): string
  {
    if n < 0 then "-" + NatToString(-n) else NatToString(n)
  }

  /** The value a decimal digit string denotes. */
  function DigitsValue(s: string): nat
    requires forall i | 0 <= i < |s| :: '0' <= s[i] <= '9'
  {
    if s == [] then 0 else 10 * DigitsValue(s[..|s| - 1]) + (s[|s| - 1] as int - 48)
  }

  /** The value a printed integer denotes. */
  function DecimalValue(s: string): Option<int>
  {
    if s != [] && s[0] == '-' then
      var digits := s[1..];
      if forall i | 0 <= i < |digits| :: '0' <= digits[i] <= '9' then Some(0 - DigitsValue(digits)) else None
    else if forall i | 0 <= i < |s| :: '0' <= s[i] <= '9' then Some(DigitsValue(s))
    else None
  }

  lemma {:induction false} NatToStringValue(n: nat)
    ensures DigitsValue(NatToString(n)) == n
  {
    if n >= 10 {
      NatToStringValue(n / 10);
      var s := NatToString(n);
      assert s[..|s| - 1] == NatToString(n / 10);
    }
  }

  /** Printing an integer loses nothing: its text reads back as the same
      value. */
  lemma IntToStringValue(n: int)
    ensures DecimalValue(IntToString(n)) == Some(n)
  {
    var s := IntToString(n);
    if n < 0 {
      assert s[0] == '-' && s[1..] == NatToString(-n);
      NatToStringValue(-n);
    } else {
      assert '0' <= s[0] <= '9';
      NatToStringValue(n);
    }
  }

  /** `parts` separated by `sep`: a separator between two neighbours and
      none after the last. */
  function Join(parts: seq<string>, sep: string): string
  {
    if |parts| == 0 then ""
    else if |parts| == 1 then parts[0]
    else Join(parts[..|parts| - 1], sep) + sep + parts[|parts| - 1]
  }

  /** Every part but the last is followed by a separator, and the last
      part ends the text. */
  lemma {:induction false} JoinShape(parts: seq<string>, sep: string)
    requires |parts| > 0
    ensures Join(parts, sep) == JoinAll(parts[..|parts| - 1], sep) + parts[|parts| - 1]
  {
    if |parts| > 1 {
      var init := parts[..|parts| - 1];
      JoinShape(init, sep);
      assert init[..|init| - 1] == parts[..|parts| - 2];
      JoinAllSnoc(parts[..|parts| - 2], parts[|parts| - 2], sep);
      assert parts[..|parts| - 2] + [parts[|parts| - 2]] == init;
    }
  }

  /** Each part followed by its own separator. */
  function JoinAll(parts: seq<string>, sep: string): string
  {
    if parts == [] then "" else parts[0] + sep + JoinAll(parts[1..], sep)
  }

  lemma {:induction false} JoinAllSnoc(parts: seq<string>, x: string, sep: string)
    ensures JoinAll(parts + [x], sep) == JoinAll(parts, sep) + x + sep
  {
    if parts != [] {
      assert (parts + [x])[1..] == parts[1..] + [x];
      JoinAllSnoc(parts[1..], x, sep);
    }
  }

  /** The object written for one log; `time` is its formatted local time. */
  function LogObject(log: ScanLog, time: string): string
  {
    "    {\n" +
    "      \"user_id\": \"" + Escape(log.userId) + "\",\n" +
    "      \"user_name\": \"" + Escape(log.userName) + "\",\n" +
    "      \"action\": \"" + Escape(log.action) + "\",\n" +
    "      \"timestamp\": \"" + time + "\",\n" +
    "      \"unix_timestamp\": " + IntToString(log.timestamp) + "\n" +
    "    }"
  }

  function LogObjects(logs: seq<ScanLog>, formatTime: int -> string): (r: seq<string>)
    ensures |r| == |logs|
  {
    seq(|logs|, k requires 0 <= k < |logs| => LogObject(logs[k], formatTime(logs[k].timestamp)))
  }

  const Head: string := "{\n  \"daily_logs\": [\n"

  /** The lines after the array: the scan total and the export time. */
  function Tail(totalScans: int, exportTime: string): string
  {
    "  ],\n" +
    "  \"total_scans\": " + IntToString(totalScans) + ",\n" +
    "  \"export_time\": \"" + exportTime + "\"\n" +
    "}\n"
  }

  /** The array's text after its first `i` objects: each object but the last
      is followed by ",\n", the last one by "\n". */
  function ArrayPrefix(objects: seq<string>, i: nat): string
    requires i <= |objects|
  {
    if i == 0 then "" else Join(objects[..i], ",\n") + (if i < |objects| then ",\n" else "\n")
  }

  /** Writing object `i` and what follows it extends the prefix by one
      (after any text `head` written before the array). */
  lemma ArrayPrefixStep(head: string, objects: seq<string>, i: nat)
    requires i < |objects|
    ensures head + ArrayPrefix(objects, i + 1) ==
              head + ArrayPrefix(objects, i) + objects[i] + (if i < |objects| - 1 then ",\n" else "\n")
  {
    if i > 0 {
      assert objects[..i + 1][..i] == objects[..i];
    } else {
      assert objects[..1] == [objects[0]];
    }
  }

  /** Once every object is written, the prefix is the joined array. */
  lemma ArrayPrefixComplete(objects: seq<string>)
    ensures ArrayPrefix(objects, |objects|) == if objects == [] then "" else Join(objects, ",\n") + "\n"
  {
    assert objects[..|objects|] == objects;
  }

  /** The whole exported document: the log objects in the given (sorted)
      order, separated by commas with none after the last, one per line. */
  function JsonDocument(sorted: seq<ScanLog>, totalScans: int, formatTime: int -> string, exportTime: string): string
  {
    var objects := LogObjects(sorted, formatTime);
    Head + (if objects == [] then "" else Join(objects, ",\n") + "\n") + Tail(totalScans, exportTime)
  }
}
