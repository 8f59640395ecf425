/**
 * The line format of the persisted skip list, for the String, String instantiation
 * the console driver uses: dumpFile writes one line `key:value;` per node of the
 * level-0 chain, and loadFile reads each line back through isValidString and
 * getKeyValueFromString, handing every decoded pair to add.
 */
module Records {
  import opened Options

  /** What getKeyValueFromString makes of one line: no pair (it returns null), a
      pair, or the StringIndexOutOfBoundsException thrown by its second substring. */
  datatype Parsed = Invalid | Record(key: string, value: string) | OutOfBounds

  /** The outcome of loadFile: every pair handed to add, and whether an exception
      ended the load early (the pairs handed over before it stay added). */
  datatype Loaded = Loaded(pairs: seq<(string, string)>) | Aborted(pairs: seq<(string, string)>)

  /** The record dumpFile writes for one node: the key, ':', the value and ';'. */
  function Encode(key: string, value: string): (line: string)
    ensures |line| == |key| + |value| + 2
    ensures line[..|key|] == key && line[|key|] == ':'
    ensures line[|key| + 1..|line| - 1] == value && line[|line| - 1] == ';'
  {
    key + ":" + value + ";"
  }

  /** String.indexOf(char): the first position of c in s, or -1. */
  function IndexOf(s: string, c: char): (r: int)
    ensures -1 <= r < |s|
    ensures r == -1 <==> c !in s
    ensures r >= 0 ==> s[r] == c && c !in s[..r]
  {
    if s == [] then -1
    else if s[0] == c then 0
    else
      var i := IndexOf(s[1..], c);
      assert s[1..][..if i < 0 then 0 else i] == s[1..1 + if i < 0 then 0 else i];
      if i == -1 then -1 else i + 1
  }

  /** isValidString: a line is valid when it is not null and holds a ':'
      (the emptiness test is subsumed by the colon test). */
  function IsValidString(data: Option<string>): (valid: bool)
    ensures valid <==> data.Some? && ':' in data.value
  {
    if data.None? || |data.value| == 0 then false
    else if ':' !in data.value then false
    else true
  }

  /**
   * getKeyValueFromString: the key is the text before the first ':', the value the
   * text after it without the line's last character. substring(i + 1, |s| - 1)
   * throws when i + 1 > |s| - 1, which happens exactly when the first ':' is the
   * last character of the line.
   */
  function GetKeyValueFromString(data: Option<string>): (r: Parsed)
    ensures r.Invalid? <==> !IsValidString(data)
    ensures r.OutOfBounds? <==> IsValidString(data) && IndexOf(data.value, ':') == |data.value| - 1
    ensures r.Record? ==> ':' !in r.key && data.value == r.key + ":" + r.value + [data.value[|data.value| - 1]]
  {
    if !IsValidString(data) then Invalid
    else
      var s := data.value;
      var i := IndexOf(s, ':');
      if i + 1 > |s| - 1 then OutOfBounds
      else
        assert s == s[..i] + ":" + s[i + 1..|s| - 1] + [s[|s| - 1]];
        Record(s[..i], s[i + 1..|s| - 1])
  }

  /** Decoding the record of a key without ':' gives back the key and the value. */
  lemma DecodeEncode(key: string, value: string)
    requires ':' !in key
    ensures GetKeyValueFromString(Some(Encode(key, value))) == Record(key, value)
  {
    var s := Encode(key, value);
    assert s[|key|] == ':';
    assert s[..|key|] == key;
    var i := IndexOf(s, ':');
    assert s[i + 1..|s| - 1] == value;
  }

  /** A ':' inside a key is not preserved: the decoder splits at the key's first ':'. */
  lemma ColonInKeyMisread()
    ensures GetKeyValueFromString(Some(Encode("a:b", "c"))) == Record("a", "b:c")
  {
    var s := Encode("a:b", "c");
    assert s == ['a', ':', 'b', ':', 'c', ';'];
    assert IndexOf(s, ':') == 1;
  }

  /** The lines dumpFile writes for the level-0 entries, in traversal order. */
  function DumpFile(es: seq<(string, string)>): (lines: seq<string>)
    ensures |lines| == |es|
    ensures forall j :: 0 <= j < |es| ==> lines[j] == Encode(es[j].0, es[j].1)
  {
    if es == [] then [] else [Encode(es[0].0, es[0].1)] + DumpFile(es[1..])
  }

  /** A character at which BufferedReader.readLine ends a line. */
  predicate IsBreak(c: char)
  {
    c == '\n' || c == '\r'
  }

  /** A string that holds no line break. */
  predicate NoBreak(s: string)
  {
    '\n' !in s && '\r' !in s
  }

  /** Where the current line of a text ends: at its first '\n' or '\r', or at its end. */
  function LineEnd(text: string): (i: nat)
    ensures i <= |text|
    ensures forall k :: 0 <= k < i ==> !IsBreak(text[k])
    ensures i < |text| ==> IsBreak(text[i])
  {
    if text == [] || IsBreak(text[0]) then 0 else 1 + LineEnd(text[1..])
  }

  /** The lines successive calls of BufferedReader.readLine return until it returns
      null: a line ends at '\n', at '\r' or at "\r\n", and a last line without a
      terminator is returned as well. */
  function ReadLines(text: string): (lines: seq<string>)
    ensures |lines| <= |text|
    ensures forall j :: 0 <= j < |lines| ==> NoBreak(lines[j])
    decreases |text|
  {
    if text == [] then []
    else
      var i := LineEnd(text);
      var next :=
        if i == |text| then i
        else if text[i] == '\r' && i + 1 < |text| && text[i + 1] == '\n' then i + 2
        else i + 1;
      assert NoBreak(text[..i]) by {
        forall k | 0 <= k < i
          ensures text[..i][k] != '\n' && text[..i][k] != '\r'
        {
        }
      }
      [text[..i]] + ReadLines(text[next..])
  }

  /** The number of characters of all the lines together. */
  function TotalLength(lines: seq<string>): nat
  {
    if lines == [] then 0 else |lines[0]| + TotalLength(lines[1..])
  }

  /** The text dumpFile writes for its lines: each followed by newLine's line
      separator, taken to be "\n": one character more per line. */
  function WriteLines(lines: seq<string>): (text: string)
    ensures |text| == TotalLength(lines) + |lines|
  {
    if lines == [] then [] else lines[0] + "\n" + WriteLines(lines[1..])
  }

  /** When no line holds a "\n", the written text holds exactly one "\n" per line. */
  lemma {:induction false} WriteLinesSeparators(lines: seq<string>)
    requires forall j :: 0 <= j < |lines| ==> '\n' !in lines[j]
    ensures multiset(WriteLines(lines))['\n'] == |lines|
  {
    if lines != [] {
      WriteLinesSeparators(lines[1..]);
      assert '\n' !in multiset(lines[0]);
      assert WriteLines(lines) == lines[0] + "\n" + WriteLines(lines[1..]);
    }
  }

  /** A line without a break, followed by a break, ends right before the break. */
  lemma {:induction false} LineEndAt(l: string, tail: string)
    requires NoBreak(l) && tail != [] && IsBreak(tail[0])
    ensures LineEnd(l + tail) == |l|
  {
    if l != [] {
      assert (l + tail)[1..] == l[1..] + tail;
      assert NoBreak(l[1..]) by {
        assert l == [l[0]] + l[1..];
      }
      LineEndAt(l[1..], tail);
    }
  }

  /** A line without a break, followed by "\n", is read as one line, and reading
      goes on right after the "\n". */
  lemma ReadLineFirst(l: string, rest: string)
    requires NoBreak(l)
    ensures ReadLines(l + "\n" + rest) == [l] + ReadLines(rest)
  {
    var text := l + "\n" + rest;
    assert text == l + ("\n" + rest);
    LineEndAt(l, "\n" + rest);
    assert text[..|l|] == l;
    assert text[|l| + 1..] == rest;
  }

  /** Reading back the written text gives the lines written, when none of them
      holds a line break. */
  lemma {:induction false} ReadWriteLines(lines: seq<string>)
    requires forall j :: 0 <= j < |lines| ==> NoBreak(lines[j])
    ensures ReadLines(WriteLines(lines)) == lines
  {
    if lines != [] {
      ReadLineFirst(lines[0], WriteLines(lines[1..]));
      ReadWriteLines(lines[1..]);
      assert [lines[0]] + lines[1..] == lines;
    }
  }

  /** The records of keys and values without line breaks hold no line break. */
  lemma DumpNoBreak(es: seq<(string, string)>)
    requires forall j :: 0 <= j < |es| ==> NoBreak(es[j].0) && NoBreak(es[j].1)
    ensures forall j :: 0 <= j < |DumpFile(es)| ==> NoBreak(DumpFile(es)[j])
  {
    forall j | 0 <= j < |es|
      ensures NoBreak(Encode(es[j].0, es[j].1))
    {
      var k, v := es[j].0, es[j].1;
      assert Encode(k, v) == k + [':'] + v + [';'];
    }
  }

  /** Put one more pair in front of what the rest of the load hands to add. */
  function Prepend(kv: (string, string), rest: Loaded): Loaded
  {
    match rest
    case Loaded(ps) => Loaded([kv] + ps)
    case Aborted(ps) => Aborted([kv] + ps)
  }

  /** loadFile, as written: invalid lines are skipped, a line whose first ':' is its
      last character throws and ends the load. */
  function LoadFile(lines: seq<string>): (r: Loaded)
    ensures |r.pairs| <= |lines|
    ensures forall j :: 0 <= j < |r.pairs| ==> ':' !in r.pairs[j].0
    ensures r.Aborted? <==> exists j :: 0 <= j < |lines| && GetKeyValueFromString(Some(lines[j])).OutOfBounds?
  {
    if lines == [] then Loaded([])
    else
      match GetKeyValueFromString(Some(lines[0]))
      case Invalid => LoadFile(lines[1..])
      case OutOfBounds => Aborted([])
      case Record(k, v) => Prepend((k, v), LoadFile(lines[1..]))
  }

  /** Loading the lines that were dumped hands the same pairs to add, in the same
      order, provided no key holds a ':'. */
  lemma {:induction false} LoadDumpLines(es: seq<(string, string)>)
    requires forall j :: 0 <= j < |es| ==> ':' !in es[j].0
    ensures LoadFile(DumpFile(es)) == Loaded(es)
  {
    if es != [] {
      DecodeEncode(es[0].0, es[0].1);
      assert DumpFile(es)[1..] == DumpFile(es[1..]);
      LoadDumpLines(es[1..]);
      assert [es[0]] + es[1..] == es;
    }
  }

  /** Loading the file that was dumped hands the same pairs to add, in the same
      order, provided no key holds a ':' and neither keys nor values hold a line break. */
  lemma LoadDump(es: seq<(string, string)>)
    requires forall j :: 0 <= j < |es| ==> ':' !in es[j].0
    requires forall j :: 0 <= j < |es| ==> NoBreak(es[j].0) && NoBreak(es[j].1)
    ensures LoadFile(ReadLines(WriteLines(DumpFile(es)))) == Loaded(es)
  {
    DumpNoBreak(es);
    ReadWriteLines(DumpFile(es));
    LoadDumpLines(es);
  }

  /** The text dumped for the value "\nx" of key "k": the line "k:", a line break,
      the line "x;" and the line separator. */
  lemma LineBreakDumped()
    ensures WriteLines(DumpFile([("k", "\nx")])) == "k:" + "\n" + ("x;" + "\n" + [])
  {
    var line := Encode("k", "\nx");
    assert line == ['k', ':', '\n', 'x', ';'];
    assert DumpFile([("k", "\nx")]) == [line];
    assert WriteLines([line]) == line + "\n" + WriteLines([]);
  }

  /** A line break inside a value splits its record when the file is read back: the
      value "\nx" is dumped as "k:\nx;", which reads back as the lines "k:" and "x;". */
  lemma LineBreakSplits()
    ensures ReadLines(WriteLines(DumpFile([("k", "\nx")]))) == ["k:", "x;"]
  {
    LineBreakDumped();
    assert NoBreak("k:") && NoBreak("x;");
    ReadLineFirst("k:", "x;" + "\n" + []);
    ReadLineFirst("x;", []);
  }

  /** The first of those lines ends the load with an exception, so no pair reaches add. */
  lemma LineBreakInValue()
    ensures LoadFile(ReadLines(WriteLines(DumpFile([("k", "\nx")])))) == Aborted([])
  {
    LineBreakSplits();
    assert IndexOf("k:", ':') == 1;
    assert GetKeyValueFromString(Some("k:")) == OutOfBounds;
  }

  /** The two lines of that example, decoded one by one. */
  lemma ExampleLines()
    ensures GetKeyValueFromString(Some("a:")) == OutOfBounds
    ensures GetKeyValueFromString(Some("b:c;")) == Record("b", "c")
  {
    assert IndexOf("a:", ':') == 1;
    var s: string := "b:c;";
    assert s[..1] == "b" && s[2..3] == "c";
    assert IndexOf(s, ':') == 1;
  }

  /** A line such as "a:" passes isValidString and then makes the load throw,
      although a malformed line is meant to be skipped. */
  lemma ColonLastAborts()
    ensures IsValidString(Some("a:"))
    ensures LoadFile(["a:", "b:c;"]) == Aborted([])
    ensures LoadFileSkipping(["a:", "b:c;"]) == [("b", "c")]
  {
    ExampleLines();
    var lines: seq<string> := ["a:", "b:c;"];
    assert lines[1..] == ["b:c;"] && lines[1..][1..] == [];
  }

  /** getKeyValueFromString with the missing check: a line whose first ':' is its last
      character is treated as malformed instead of throwing. */
  function GetKeyValueChecked(data: Option<string>): (r: Parsed)
    ensures !r.OutOfBounds?
    ensures r.Record? <==> GetKeyValueFromString(data).Record?
    ensures r.Record? ==> r == GetKeyValueFromString(data)
  {
    match GetKeyValueFromString(data)
    case OutOfBounds => Invalid
    case other => other
  }

  /** loadFile as intended: every malformed line is skipped and the load runs to the end. */
  function LoadFileSkipping(lines: seq<string>): (pairs: seq<(string, string)>)
    ensures |pairs| <= |lines|
    ensures forall j :: 0 <= j < |pairs| ==> ':' !in pairs[j].0
    ensures forall j :: 0 <= j < |pairs| ==>
      exists i :: 0 <= i < |lines| && GetKeyValueFromString(Some(lines[i])) == Record(pairs[j].0, pairs[j].1)
  {
    if lines == [] then []
    else
      var r := GetKeyValueChecked(Some(lines[0]));
      if r.Record? then [(r.key, r.value)] + LoadFileSkipping(lines[1..])
      else LoadFileSkipping(lines[1..])
  }

  /** Wherever the load as written runs to the end, the corrected load hands add the
      same pairs. */
  lemma {:induction false} SkippingAgrees(lines: seq<string>)
    ensures LoadFile(lines).Loaded? ==> LoadFile(lines).pairs == LoadFileSkipping(lines)
  {
    if lines != [] {
      SkippingAgrees(lines[1..]);
    }
  }

  /** The corrected load reads a dumped file back like the written one does. */
  lemma LoadDumpSkipping(es: seq<(string, string)>)
    requires forall j :: 0 <= j < |es| ==> ':' !in es[j].0
    requires forall j :: 0 <= j < |es| ==> NoBreak(es[j].0) && NoBreak(es[j].1)
    ensures LoadFileSkipping(ReadLines(WriteLines(DumpFile(es)))) == es
  {
    LoadDump(es);
    SkippingAgrees(ReadLines(WriteLines(DumpFile(es))));
  }
}
