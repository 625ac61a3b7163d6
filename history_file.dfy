/** The text form of a file's history in the changes directory. The first
    record's token is written as the whole file (`_write_file`); each later
    token is appended (`_update_file`); reading the history splits the text
    into lines (`readlines`) and decodes each line back into a record.

    The token codec (JSON, then base64) is a pair of parameters: `encode`
    maps a record to its token and `decode` reads one back or fails. All the
    model assumes of them is `Codec`: a token is non-empty, holds no line break
    `\n` or `\r` (the base64 alphabet of section 4 of RFC 4648 has neither),
    so `readlines` splits a history only between tokens, and decodes to the
    record it encodes. */
module HistoryFile {
  import opened LineMaps
  import opened Optional

  /** File name (a path's history id) to the file's text. */
  type Directory = map<string, string>

  ghost predicate Codec(encode: Change -> string, decode: string -> Option<Change>)
  {
    forall c :: encode(c) != "" && '\n' !in encode(c) && '\r' !in encode(c) && decode(encode(c)) == Some(c)
  }

  // ---------------------------------------------------------------------
  // Writing
  // ---------------------------------------------------------------------

  /** `_write_file`: the file's text becomes `content`, whatever it was; a
      missing file is created and every other file is left alone. */
  function WriteFile(dir: Directory, name: string, content: string): (d: Directory)
    ensures d.Keys == dir.Keys + {name} && d[name] == content
    ensures forall n :: n in dir && n != name ==> d[n] == dir[n]
  {
    dir[name := content]
  }

  /** The text `_update_file` adds after what the file holds: the content,
      preceded by a newline only when `newLine` is set. */
  function Appended(content: string, newLine: bool): (text: string)
  {
    if newLine then "\n" + content else content
  }

  /** `_update_file`: opening in append mode creates a missing file, then the
      text of `Appended` goes at its end. What the file held stays as a
      prefix, `content` ends the new text, and exactly one character more
      comes between them when `newLine` is set, a newline. Every other file
      is left alone. */
  function UpdateFile(dir: Directory, name: string, content: string, newLine: bool): (d: Directory)
    ensures d.Keys == dir.Keys + {name}
    ensures var before := if name in dir then dir[name] else "";
            && |d[name]| == |before| + |content| + (if newLine then 1 else 0)
            && d[name][..|before|] == before
            && d[name][|d[name]| - |content|..] == content
            && (newLine ==> d[name][|before|] == '\n')
    ensures forall n :: n in dir && n != name ==> d[n] == dir[n]
  {
    var before := if name in dir then dir[name] else "";
    AppendedText(before, content, newLine);
    dir[name := before + Appended(content, newLine)]
  }

  /** The text after an append: the old text, then the separator if any,
      then the content. */
  lemma AppendedText(before: string, content: string, newLine: bool)
    ensures var text := before + Appended(content, newLine);
            && |text| == |before| + |content| + (if newLine then 1 else 0)
            && text[..|before|] == before
            && text[|text| - |content|..] == content
            && (newLine ==> text[|before|] == '\n')
  {
    var text := before + Appended(content, newLine);
    assert text[..|before|] == before;
    assert text[|text| - |content|..] == content;
  }

  /** The directory after a history's tokens were stored one submit at a
      time: the first written, every later one appended with `newLine`. The
      history's text starts with the first token and ends with the last,
      whatever the file held before; every other file is left alone. */
  function Store(dir: Directory, name: string, tokens: seq<string>, newLine: bool): (d: Directory)
    requires tokens != []
    ensures d.Keys == dir.Keys + {name}
    ensures tokens[0] <= d[name]
    ensures |tokens[|tokens| - 1]| <= |d[name]|
    ensures d[name][|d[name]| - |tokens[|tokens| - 1]|..] == tokens[|tokens| - 1]
    ensures forall n :: n in dir && n != name ==> d[n] == dir[n]
  {
    if |tokens| == 1 then WriteFile(dir, name, tokens[0])
    else
      var earlier := tokens[..|tokens| - 1];
      var prior := Store(dir, name, earlier, newLine);
      assert earlier[0] == tokens[0];
      UpdateFile(prior, name, tokens[|tokens| - 1], newLine)
  }

  /** One more token appends its text to what the earlier tokens stored; a
      single token is the whole text. */
  lemma StoreStep(dir: Directory, name: string, tokens: seq<string>, newLine: bool)
    requires tokens != []
    ensures |tokens| == 1 ==> Store(dir, name, tokens, newLine)[name] == tokens[0]
    ensures |tokens| > 1 ==>
              Store(dir, name, tokens, newLine)[name] ==
              Store(dir, name, tokens[..|tokens| - 1], newLine)[name] + Appended(tokens[|tokens| - 1], newLine)
  {
  }

  /** The tokens of a sequence of records. */
  function Tokens(records: seq<Change>, encode: Change -> string): (ts: seq<string>)
    ensures |ts| == |records|
    ensures forall i :: 0 <= i < |records| ==> ts[i] == encode(records[i])
  {
    if records == [] then [] else [encode(records[0])] + Tokens(records[1..], encode)
  }

  // ---------------------------------------------------------------------
  // Reading
  // ---------------------------------------------------------------------

  /** Index of the first newline of `s`, or `|s|` when there is none. */
  function FirstNewline(s: string): (i: nat)
    ensures i <= |s|
    ensures i < |s| ==> s[i] == '\n'
    ensures forall j :: 0 <= j < i ==> s[j] != '\n'
  {
    if s == [] || s[0] == '\n' then 0 else 1 + FirstNewline(s[1..])
  }

  /** `readlines`: each line keeps its newline; a last line without one is
      kept too; an empty text has no lines. */
  function ReadLines(s: string): (lines: seq<string>)
    decreases |s|
  {
    if s == [] then []
    else
      var i := FirstNewline(s);
      if i == |s| then [s] else [s[..i + 1]] + ReadLines(s[i + 1..])
  }

  function Concat(lines: seq<string>): (s: string)
  {
    if lines == [] then "" else lines[0] + Concat(lines[1..])
  }

  /** Splitting into lines loses nothing, and every line but the last ends in
      the only newline it holds. */
  lemma {:induction false} ReadLinesSplit(s: string)
    ensures Concat(ReadLines(s)) == s
    ensures forall k :: 0 <= k < |ReadLines(s)| ==> ReadLines(s)[k] != ""
    ensures forall k :: 0 <= k < |ReadLines(s)| - 1 ==>
              ReadLines(s)[k][|ReadLines(s)[k]| - 1] == '\n'
    ensures forall k, j :: 0 <= k < |ReadLines(s)| && 0 <= j < |ReadLines(s)[k]| - 1 ==>
              ReadLines(s)[k][j] != '\n'
  {
    ReadLinesConcat(s);
    ReadLinesShape(s);
    var lines := ReadLines(s);
    forall k | 0 <= k < |lines|
      ensures lines[k] != ""
      ensures k < |lines| - 1 ==> lines[k][|lines[k]| - 1] == '\n'
      ensures forall j :: 0 <= j < |lines[k]| - 1 ==> lines[k][j] != '\n'
    {
      assert LineShape(lines[k], k == |lines| - 1);
    }
  }

  /** A line as `readlines` returns it: non-empty, ended by a newline unless
      it is the last, and holding no other newline. */
  predicate LineShape(line: string, isLast: bool)
  {
    && line != ""
    && (!isLast ==> line[|line| - 1] == '\n')
    && forall j :: 0 <= j < |line| - 1 ==> line[j] != '\n'
  }

  lemma {:induction false} ReadLinesConcat(s: string)
    ensures Concat(ReadLines(s)) == s
    decreases |s|
  {
    if s != [] {
      var i := FirstNewline(s);
      var lines := ReadLines(s);
      if i < |s| {
        var head, rest := s[..i + 1], s[i + 1..];
        var tail := ReadLines(rest);
        assert lines == [head] + tail;
        assert lines[0] == head && lines[1..] == tail;
        calc {
          Concat(lines);
          head + Concat(tail);
          { ReadLinesConcat(rest); }
          head + rest;
          s;
        }
      } else {
        assert lines == [s] && lines[1..] == [];
      }
    }
  }

  lemma {:induction false} ReadLinesShape(s: string)
    ensures forall k :: 0 <= k < |ReadLines(s)| ==> LineShape(ReadLines(s)[k], k == |ReadLines(s)| - 1)
    decreases |s|
  {
    if s != [] {
      var i := FirstNewline(s);
      var lines := ReadLines(s);
      if i < |s| {
        var head, rest := s[..i + 1], s[i + 1..];
        var tail := ReadLines(rest);
        ReadLinesShape(rest);
        assert lines == [head] + tail;
        forall j | 0 <= j < |head| - 1
          ensures head[j] != '\n'
        {
          assert head[j] == s[j];
        }
        assert LineShape(head, false);
        forall k | 1 <= k < |lines|
          ensures LineShape(lines[k], k == |lines| - 1)
        {
          assert lines[k] == tail[k - 1];
        }
      } else {
        assert lines == [s];
        assert LineShape(s, true);
      }
    }
  }

  /** A text without newlines is a single line. */
  lemma OneLine(s: string)
    requires s != "" && '\n' !in s
    ensures ReadLines(s) == [s]
  {
    forall j | 0 <= j < |s|
      ensures s[j] != '\n'
    {
      assert s[j] in s;
    }
  }

  /** A newline-free line ended by a newline is split off the front. */
  lemma FirstLine(t: string, rest: string)
    requires '\n' !in t
    ensures ReadLines(t + "\n" + rest) == [t + "\n"] + ReadLines(rest)
  {
    var s := t + "\n" + rest;
    var i := FirstNewline(s);
    assert s[|t|] == '\n';
    forall j | 0 <= j < |t|
      ensures s[j] != '\n'
    {
      assert s[j] == t[j] && t[j] in t;
    }
    assert i == |t|;
    assert s[..i + 1] == t + "\n";
    assert s[i + 1..] == rest;
  }

  /** A line without its terminating newline, which base64 decoding discards. */
  function Chomp(line: string): (s: string)
  {
    if line != "" && line[|line| - 1] == '\n' then line[..|line| - 1] else line
  }

  /** The records a history's text decodes to: one per line, or nothing when
      some line does not decode. */
  function DecodeLines(lines: seq<string>, decode: string -> Option<Change>): (records: Option<seq<Change>>)
  {
    if forall i :: 0 <= i < |lines| ==> decode(Chomp(lines[i])).Some? then
      Some(seq(|lines|, i requires 0 <= i < |lines| => decode(Chomp(lines[i])).value))
    else None
  }

  /** What `get_changes` returns for a history file; a missing file fails. */
  function ReadHistory(dir: Directory, name: string, decode: string -> Option<Change>): (history: Option<seq<Change>>)
  {
    if name in dir then DecodeLines(ReadLines(dir[name]), decode) else None
  }

  /** `get_changes`: the loop decoding the history's lines in order. */
  method GetChanges(dir: Directory, name: string, decode: string -> Option<Change>)
    returns (history: Option<seq<Change>>)
    ensures history == ReadHistory(dir, name, decode)
    ensures history.Some? ==> name in dir && |history.value| == |ReadLines(dir[name])|
  {
    if name !in dir {
      return None;
    }
    var lines := ReadLines(dir[name]);
    var records: seq<Change> := [];
    for i := 0 to |lines|
      invariant |records| == i
      invariant forall j :: 0 <= j < i ==> decode(Chomp(lines[j])) == Some(records[j])
    {
      var info := decode(Chomp(lines[i]));
      if info.None? {
        return None;
      }
      records := records + [info.value];
    }
    assert records == seq(|lines|, j requires 0 <= j < |lines| => decode(Chomp(lines[j])).value);
    return Some(records);
  }

  // ---------------------------------------------------------------------
  // The separator
  // ---------------------------------------------------------------------

  /** As submitted, later tokens are appended with no separator: the history
      text is the bare concatenation of its tokens, so it reads back as one
      line however many records were stored. */
  lemma {:induction false} UnseparatedHistoryIsOneLine(dir: Directory, name: string, tokens: seq<string>)
    requires tokens != []
    requires forall i :: 0 <= i < |tokens| ==> tokens[i] != "" && '\n' !in tokens[i]
    ensures name in Store(dir, name, tokens, false)
    ensures Store(dir, name, tokens, false)[name] == Concat(tokens)
    ensures ReadLines(Store(dir, name, tokens, false)[name]) == [Concat(tokens)]
  {
    UnseparatedText(dir, name, tokens);
    ConcatNoNewline(tokens);
    OneLine(Concat(tokens));
  }

  lemma {:induction false} UnseparatedText(dir: Directory, name: string, tokens: seq<string>)
    requires tokens != []
    ensures name in Store(dir, name, tokens, false)
    ensures Store(dir, name, tokens, false)[name] == Concat(tokens)
  {
    if |tokens| > 1 {
      var n := |tokens| - 1;
      calc {
        Store(dir, name, tokens, false)[name];
        { StoreStep(dir, name, tokens, false); }
        Store(dir, name, tokens[..n], false)[name] + tokens[n];
        { UnseparatedText(dir, name, tokens[..n]); }
        Concat(tokens[..n]) + tokens[n];
        { ConcatSnoc(tokens[..n], tokens[n]); }
        Concat(tokens[..n] + [tokens[n]]);
        { assert tokens[..n] + [tokens[n]] == tokens; }
        Concat(tokens);
      }
    } else {
      StoreStep(dir, name, tokens, false);
      assert tokens[1..] == [];
    }
  }

  lemma {:induction false} ConcatSnoc(lines: seq<string>, s: string)
    ensures Concat(lines + [s]) == Concat(lines) + s
  {
    if lines != [] {
      ConcatSnoc(lines[1..], s);
      assert (lines + [s])[1..] == lines[1..] + [s];
    }
  }

  lemma {:induction false} ConcatNoNewline(tokens: seq<string>)
    requires tokens != []
    requires forall i :: 0 <= i < |tokens| ==> tokens[i] != "" && '\n' !in tokens[i]
    ensures Concat(tokens) != "" && '\n' !in Concat(tokens)
  {
    if |tokens| > 1 {
      ConcatNoNewline(tokens[1..]);
    } else {
      assert tokens[1..] == [];
    }
  }

  /** Consequently two submits of a file leave a history that does not read
      back as their two records. */
  lemma UnseparatedHistoryLosesRecords(
    dir: Directory, name: string, first: Change, second: Change,
    encode: Change -> string, decode: string -> Option<Change>)
    requires Codec(encode, decode)
    ensures ReadHistory(Store(dir, name, [encode(first), encode(second)], false), name, decode)
            != Some([first, second])
  {
    UnseparatedHistoryIsOneLine(dir, name, [encode(first), encode(second)]);
  }

  /** The text of tokens joined by newlines, built from the front. */
  function Separated(tokens: seq<string>): (text: string)
    requires tokens != []
  {
    if |tokens| == 1 then tokens[0] else tokens[0] + "\n" + Separated(tokens[1..])
  }

  lemma {:induction false} SeparatedSnoc(tokens: seq<string>, t: string)
    requires tokens != []
    ensures Separated(tokens + [t]) == Separated(tokens) + "\n" + t
  {
    if |tokens| > 1 {
      SeparatedSnoc(tokens[1..], t);
      assert (tokens + [t])[1..] == tokens[1..] + [t];
    } else {
      assert (tokens + [t])[1..] == [t];
    }
  }

  lemma {:induction false} SeparatedText(dir: Directory, name: string, tokens: seq<string>)
    requires tokens != []
    ensures name in Store(dir, name, tokens, true)
    ensures Store(dir, name, tokens, true)[name] == Separated(tokens)
  {
    if |tokens| > 1 {
      var n := |tokens| - 1;
      calc {
        Store(dir, name, tokens, true)[name];
        { StoreStep(dir, name, tokens, true); }
        Store(dir, name, tokens[..n], true)[name] + "\n" + tokens[n];
        { SeparatedText(dir, name, tokens[..n]); }
        Separated(tokens[..n]) + "\n" + tokens[n];
        { SeparatedSnoc(tokens[..n], tokens[n]); }
        Separated(tokens[..n] + [tokens[n]]);
        { assert tokens[..n] + [tokens[n]] == tokens; }
        Separated(tokens);
      }
    } else {
      StoreStep(dir, name, tokens, true);
    }
  }

  /** Chomping a newline-free token, alone or with its newline, gives it. */
  lemma ChompToken(t: string)
    requires t != "" && '\n' !in t
    ensures Chomp(t) == t && Chomp(t + "\n") == t
  {
    assert t[|t| - 1] in t;
    assert (t + "\n")[..|t|] == t;
  }

  /** Newline-separated tokens read back as one line per token, each line
      giving its token once the newline is dropped. */
  lemma {:induction false} SeparatedLines(tokens: seq<string>)
    requires tokens != []
    requires forall i :: 0 <= i < |tokens| ==> tokens[i] != "" && '\n' !in tokens[i]
    ensures |ReadLines(Separated(tokens))| == |tokens|
    ensures forall i :: 0 <= i < |tokens| ==> Chomp(ReadLines(Separated(tokens))[i]) == tokens[i]
  {
    var t := tokens[0];
    ChompToken(t);
    if |tokens| == 1 {
      OneLine(t);
    } else {
      var rest := tokens[1..];
      var tail := ReadLines(Separated(rest));
      SeparatedLines(rest);
      assert Separated(tokens) == t + "\n" + Separated(rest);
      FirstLine(t, Separated(rest));
      var lines := ReadLines(Separated(tokens));
      assert lines == [t + "\n"] + tail;
      forall i | 1 <= i < |tokens|
        ensures Chomp(lines[i]) == tokens[i]
      {
        assert lines[i] == tail[i - 1] && tokens[i] == rest[i - 1];
      }
    }
  }

  /** Stored with a newline before every later token, a history reads back
      as exactly the records that were stored, in order. */
  lemma SeparatedHistoryRoundTrip(
    dir: Directory, name: string, records: seq<Change>,
    encode: Change -> string, decode: string -> Option<Change>)
    requires Codec(encode, decode)
    requires records != []
    ensures ReadHistory(Store(dir, name, Tokens(records, encode), true), name, decode) == Some(records)
  {
    var tokens := Tokens(records, encode);
    var lines := ReadLines(Separated(tokens));
    assert DecodeLines(lines, decode) == Some(records) by {
      SeparatedLines(tokens);
      forall i | 0 <= i < |lines|
        ensures decode(Chomp(lines[i])) == Some(records[i])
      {
        assert Chomp(lines[i]) == encode(records[i]);
      }
      assert seq(|lines|, i requires 0 <= i < |lines| => decode(Chomp(lines[i])).value) == records;
    }
    var stored := Store(dir, name, tokens, true);
    SeparatedText(dir, name, tokens);
    assert ReadHistory(stored, name, decode) == DecodeLines(ReadLines(stored[name]), decode);
  }
}
