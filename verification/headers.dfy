/**
 * The colon-line map both scripts build from a text payload: split on '\n',
 * split each line at its first ':', strip both halves, later lines win.
 * `parse_sip_data` builds it with a loop over `line.split(':', 1)`;
 * `_decode_raw_data` builds the same map with a dict comprehension.
 */
module Headers {
  import opened Wrappers
  import opened Text
  import opened Dicts

  /** Index of the first ':' of a line. */
  function FirstColon(line: string): (c: nat)
    requires ':' in line
    ensures c < |line| && line[c] == ':' && ':' !in line[..c]
  {
    if line[0] == ':' then 0
    else
      var c := FirstColon(line[1..]);
      assert line[..c + 1] == [line[0]] + line[1..][..c];
      c + 1
  }

  /** The stripped text before the first colon. */
  function LineKey(line: string): string
    requires ':' in line
  {
    Strip(line[..FirstColon(line)])
  }

  /** The stripped text after the first colon. */
  function LineValue(line: string): string
    requires ':' in line
  {
    Strip(line[FirstColon(line) + 1..])
  }

  /** What one line contributes to the map: nothing when it has no colon. */
  function LineEntry(line: string): Option<(string, string)> {
    if ':' in line then Some((LineKey(line), LineValue(line))) else None
  }

  /** The text's lines, as `text.split('\n')` returns them. */
  function Lines(text: string): (lines: seq<string>)
    ensures |lines| >= 1
    ensures Join(lines, "\n") == text
    ensures forall i :: 0 <= i < |lines| ==> '\n' !in lines[i]
  {
    var lines := Split(text, "\n");
    forall i | 0 <= i < |lines| ensures '\n' !in lines[i] {
      ContainsChar(lines[i], '\n');
    }
    lines
  }

  /** The colon-line map of a text, as a loop over its lines. */
  function ColonMap(text: string): map<string, string> {
    Assign(map[], Lines(text), LineEntry)
  }

  /** Every line holding a colon puts its key in the map. */
  lemma ColonMapKeys(text: string)
    ensures forall i :: 0 <= i < |Lines(text)| && ':' in Lines(text)[i] ==> LineKey(Lines(text)[i]) in ColonMap(text)
  {
    var lines := Lines(text);
    forall i | 0 <= i < |lines| && ':' in lines[i] ensures LineKey(lines[i]) in ColonMap(text) {
      assert AssignsAt(lines, LineEntry, i, LineKey(lines[i]));
    }
  }

  /** Lines without a colon contribute nothing: every key comes from a line holding one. */
  lemma ColonMapOnlyHeaderLines(text: string)
    ensures forall k :: k in ColonMap(text) ==>
      exists i :: 0 <= i < |Lines(text)| && ':' in Lines(text)[i] && LineKey(Lines(text)[i]) == k
  {
    var lines := Lines(text);
    forall k | k in ColonMap(text)
      ensures exists i :: 0 <= i < |lines| && ':' in lines[i] && LineKey(lines[i]) == k
    {
      var i :| AssignsAt(lines, LineEntry, i, k);
    }
  }

  /** When several lines share a key, the last of them decides the value. */
  lemma ColonMapLastWins(text: string)
    ensures forall i :: LastHeaderLine(Lines(text), i) ==>
      LineKey(Lines(text)[i]) in ColonMap(text) && ColonMap(text)[LineKey(Lines(text)[i])] == LineValue(Lines(text)[i])
  {
    var lines := Lines(text);
    forall i | LastHeaderLine(lines, i)
      ensures LineKey(lines[i]) in ColonMap(text) && ColonMap(text)[LineKey(lines[i])] == LineValue(lines[i])
    {
      var k := LineKey(lines[i]);
      forall j | i < j < |lines| ensures !AssignsAt(lines, LineEntry, j, k) {
      }
      assert LastAssignsAt(lines, LineEntry, i, k);
    }
  }

  /** Line `i` holds a colon and no later line holds one with the same key. */
  ghost predicate LastHeaderLine(lines: seq<string>, i: int) {
    && 0 <= i < |lines|
    && ':' in lines[i]
    && forall j :: i < j < |lines| && ':' in lines[j] ==> LineKey(lines[j]) != LineKey(lines[i])
  }

  /** A text without a colon has an empty map. */
  lemma ColonMapNoColon(text: string)
    requires ':' !in text
    ensures ColonMap(text) == map[]
  {
    var lines := Lines(text);
    forall i | 0 <= i < |lines| ensures ':' !in lines[i] {
      JoinContains(lines, "\n", i);
    }
  }

  /** Every character of a joined piece is a character of the joined text. */
  lemma {:induction false} JoinContains(parts: seq<string>, sep: string, i: int)
    requires 0 <= i < |parts|
    ensures forall c :: c in parts[i] ==> c in Join(parts, sep)
  {
    if |parts| > 1 {
      if i > 0 {
        JoinContains(parts[1..], sep, i - 1);
      }
      assert Join(parts, sep) == parts[0] + sep + Join(parts[1..], sep);
    }
  }

  /** A single line holding a colon is the whole map. */
  lemma ColonMapSingleLine(line: string)
    requires '\n' !in line && ':' in line
    ensures ColonMap(line) == map[LineKey(line) := LineValue(line)]
  {
    ContainsChar(line, '\n');
    SplitJoin([line], "\n");
    assert Lines(line) == [line];
    assert [line][..0] == [];
  }

  /** A line `name: value` splits back into its name and value. */
  lemma HeaderLineSplits(name: string, value: string)
    requires ':' !in name
    requires name == [] || (!IsSpace(name[0]) && !IsSpace(name[|name| - 1]))
    requires value == [] || (!IsSpace(value[0]) && !IsSpace(value[|value| - 1]))
    ensures ':' in name + ": " + value
    ensures LineKey(name + ": " + value) == name
    ensures LineValue(name + ": " + value) == value
  {
    var line := name + ": " + value;
    assert line[|name|] == ':';
    assert line[..|name|] == name;
    var c := FirstColon(line);
    assert line[..c] == [] + name + [];
    StripByPadded([], name, [], IsSpace);
    assert line[c + 1..] == " " + value + [];
    StripByPadded(" ", value, [], IsSpace);
  }

  /** A `CSeq` line: `CSeq: 101 INVITE` gives the header `CSeq` = `101 INVITE`. */
  lemma CSeqLine(text: string)
    requires text == "CSeq: 101 INVITE"
    ensures ColonMap(text) == map["CSeq" := "101 INVITE"]
  {
    assert '\n' !in text && "CSeq" + ": " + "101 INVITE" == text;
    HeaderLineSplits("CSeq", "101 INVITE");
    assert ':' in text && LineKey(text) == "CSeq" && LineValue(text) == "101 INVITE";
    ColonMapSingleLine(text);
  }
}
