/**
 * `insertTimelineYaml` (src/block.ts): add the timeline's frontmatter keys to
 * the note open in the editor, inside its existing YAML header or in a new
 * one at the top. The editor is modelled as the sequence of its lines.
 */
module TimelineYaml {
  import opened Types

  /** The lines of the YAML block, in the order they are written. */
  const YamlKeys: seq<string> := ["title:", "description:", "image:", "type:", "color:", "start-date:", "end-date:"]

  const Delimiter := "---"

  /**
   * The host's editor, reduced to its lines. A document always has at least
   * one line (an empty note has one empty line).
   */
  class Editor {
    var lines: seq<string>

    ghost predicate Valid()
      reads this
    {
      |lines| >= 1
    }

    constructor (text: seq<string>)
      requires |text| >= 1
      ensures Valid() && lines == text
    {
      lines := text;
    }

    /** `getLine(n)`. */
    function GetLine(n: nat): string
      reads this
      requires n < |lines|
    {
      lines[n]
    }

    /** `lastLine()`: the index of the last line. */
    function LastLine(): int
      reads this
    {
      |lines| - 1
    }

    /**
     * `replaceRange(text, {line: at, ch: 0}, {line: at, ch: 0})` for a text made
     * of whole lines, each ending with a newline: the lines go in before line
     * `at` (at the end when `at` is the number of lines).
     */
    method InsertLines(block: seq<string>, at: nat)
      requires Valid() && at <= |lines|
      modifies this
      ensures Valid()
      ensures lines == old(lines)[..at] + block + old(lines)[at..]
    {
      lines := lines[..at] + block + lines[at..];
    }
  }

  /** The index of the first "---" after line 0, or the number of lines when there is none. */
  function ClosingDelimiter(lines: seq<string>): (e: nat)
    ensures 1 <= e <= |lines| || (lines == [] && e == 1)
    ensures e < |lines| ==> lines[e] == Delimiter
    ensures forall k :: 1 <= k < e && k < |lines| ==> lines[k] != Delimiter
  {
    FirstDelimiterFrom(lines, 1)
  }

  function FirstDelimiterFrom(lines: seq<string>, from: nat): (e: nat)
    ensures from <= e && (e <= |lines| || e == from)
    ensures e < |lines| ==> lines[e] == Delimiter
    ensures forall k :: from <= k < e ==> lines[k] != Delimiter
    decreases |lines| - from
  {
    if from >= |lines| || lines[from] == Delimiter then from else FirstDelimiterFrom(lines, from + 1)
  }

  /**
   * The lines after the edit: with a header (first line "---"), the keys go
   * in at its closing "---" (or after the last line when it has none);
   * without one, a new "---"-wrapped block of the keys goes in at the top.
   */
  function YamlInserted(lines: seq<string>): seq<string>
    requires |lines| >= 1
  {
    if lines[0] == Delimiter then
      var e := ClosingDelimiter(lines);
      lines[..e] + YamlKeys + lines[e..]
    else
      [Delimiter] + YamlKeys + [Delimiter] + lines
  }

  /**
   * `insertTimelineYaml`: nothing happens without an editor; otherwise a
   * header is detected from the first line, its end is found by scanning for
   * the next "---", and the keys are inserted there, or in a new header at
   * the top. The configured frontmatter keys are not consulted.
   */
  method InsertTimelineYaml(frontmatterKeys: FrontmatterKeys, editor: Editor?)
    requires editor != null ==> editor.Valid()
    modifies editor
    ensures editor != null ==> editor.Valid() && editor.lines == YamlInserted(old(editor.lines))
  {
    if editor == null {
      return;
    }
    var yaml := YamlKeys;
    var firstLine := editor.GetLine(0);
    if firstLine == Delimiter {
      var frontmatterEnd := 1;
      while frontmatterEnd <= editor.LastLine() && editor.GetLine(frontmatterEnd) != Delimiter
        invariant 1 <= frontmatterEnd <= |editor.lines|
        invariant forall k :: 1 <= k < frontmatterEnd ==> editor.lines[k] != Delimiter
        decreases |editor.lines| - frontmatterEnd
      {
        frontmatterEnd := frontmatterEnd + 1;
      }
      FirstDelimiterUnique(editor.lines, 1, frontmatterEnd);
      editor.InsertLines(yaml, frontmatterEnd);
    } else {
      yaml := [Delimiter] + yaml + [Delimiter];
      editor.InsertLines(yaml, 0);
    }
  }

  /** The scan stops at the first delimiter: any index with that property is the one the function finds. */
  lemma FirstDelimiterUnique(lines: seq<string>, from: nat, e: nat)
    requires from <= e <= |lines|
    requires e < |lines| ==> lines[e] == Delimiter
    requires forall k :: from <= k < e ==> lines[k] != Delimiter
    ensures FirstDelimiterFrom(lines, from) == e
  {
    var f := FirstDelimiterFrom(lines, from);
  }

  // ---------------------------------------------------------------------------
  // What the edit does to the document
  // ---------------------------------------------------------------------------

  /** Afterwards the note starts with a header. */
  lemma StartsWithHeader(lines: seq<string>)
    requires |lines| >= 1
    ensures YamlInserted(lines)[0] == Delimiter
  {
    if lines[0] == Delimiter {
      var e := ClosingDelimiter(lines);
      assert YamlInserted(lines)[0] == lines[..e][0];
    }
  }

  /**
   * Only the seven key lines are added: taking them out again gives back the
   * original lines (and the two added delimiters, for a note without a header).
   */
  lemma InsertedKeysRemovable(lines: seq<string>)
    requires |lines| >= 1
    ensures var r := YamlInserted(lines);
      if lines[0] == Delimiter then
        var e := ClosingDelimiter(lines);
        r[e..e + |YamlKeys|] == YamlKeys && r[..e] + r[e + |YamlKeys|..] == lines
      else
        r[..|YamlKeys| + 2] == [Delimiter] + YamlKeys + [Delimiter] && r[|YamlKeys| + 2..] == lines
  {
    var r := YamlInserted(lines);
    var n := |YamlKeys|;
    if lines[0] == Delimiter {
      var e := ClosingDelimiter(lines);
      assert r == lines[..e] + YamlKeys + lines[e..];
      assert r[..e] == lines[..e];
      assert r[e..e + n] == YamlKeys;
      assert r[e + n..] == lines[e..];
      assert lines[..e] + lines[e..] == lines;
    } else {
      assert r == ([Delimiter] + YamlKeys + [Delimiter]) + lines;
    }
  }

  /**
   * The keys land inside the header: in the result, the first "---" after
   * line 0 comes right after the seven keys when the header was closed, and
   * after the keys of the new header otherwise.
   */
  lemma KeysInsideHeader(lines: seq<string>)
    requires |lines| >= 1
    requires lines[0] == Delimiter ==> ClosingDelimiter(lines) < |lines|
    ensures var r := YamlInserted(lines);
      var e := if lines[0] == Delimiter then ClosingDelimiter(lines) else 1;
      ClosingDelimiter(r) == e + |YamlKeys| && r[e..e + |YamlKeys|] == YamlKeys
  {
    var r := YamlInserted(lines);
    var n := |YamlKeys|;
    assert forall k :: 0 <= k < n ==> YamlKeys[k] != Delimiter;
    if lines[0] == Delimiter {
      var e := ClosingDelimiter(lines);
      assert r == lines[..e] + YamlKeys + lines[e..];
      assert r[e + n] == lines[e] == Delimiter;
      forall k | 1 <= k < e + n ensures r[k] != Delimiter {
        if k < e {
          assert r[k] == lines[k];
        } else {
          assert r[k] == YamlKeys[k - e];
        }
      }
      FirstDelimiterUnique(r, 1, e + n);
      assert r[e..e + n] == YamlKeys;
    } else {
      assert r == [Delimiter] + YamlKeys + [Delimiter] + lines;
      assert r[n + 1] == Delimiter;
      forall k | 1 <= k < n + 1 ensures r[k] != Delimiter {
        assert r[k] == YamlKeys[k - 1];
      }
      FirstDelimiterUnique(r, 1, n + 1);
      assert r[1..1 + n] == YamlKeys;
    }
  }
}
