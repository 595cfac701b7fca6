/** Splitting text into lines and lines into fields, as Go's strings.Split(text, "\n") and
    strings.Fields do, each with its inverse. */
module Text {
  import opened Sequences

  // ---------- Lines ----------

  function SplitLines(s: string): (lines: seq<string>)
    ensures |lines| >= 1
  {
    if s == "" then [""]
    else
      var rest := SplitLines(s[1..]);
      if s[0] == '\n' then [""] + rest else [[s[0]] + rest[0]] + rest[1..]
  }

  function JoinLines(lines: seq<string>): string
    requires |lines| >= 1
  {
    if |lines| == 1 then lines[0] else lines[0] + "\n" + JoinLines(lines[1..])
  }

  ghost predicate OneLine(s: string) { '\n' !in s }

  /** Splitting loses nothing and leaves no newline inside a line. */
  lemma {:induction false} JoinOfSplit(s: string)
    ensures JoinLines(SplitLines(s)) == s
    ensures forall line :: line in SplitLines(s) ==> OneLine(line)
  {
    if s != "" {
      var rest := SplitLines(s[1..]);
      JoinOfSplit(s[1..]);
      assert OneLine(rest[0]);
      assert s == [s[0]] + s[1..];
      if s[0] == '\n' {
        assert ([""] + rest)[1..] == rest;
      } else if |rest| > 1 {
        assert SplitLines(s)[1..] == rest[1..];
        assert JoinLines(SplitLines(s)) == ([s[0]] + rest[0]) + "\n" + JoinLines(rest[1..]);
      }
    }
  }

  /** The lines are the only newline-free ones that join to the text. */
  lemma {:induction false} SplitOfJoin(lines: seq<string>)
    requires |lines| >= 1 && forall line :: line in lines ==> OneLine(line)
    ensures SplitLines(JoinLines(lines)) == lines
  {
    assert lines[0] in lines;
    if |lines| == 1 {
      SplitOneLine(lines[0]);
      assert lines == [lines[0]];
    } else {
      SplitOfJoin(lines[1..]);
      SplitAfterLine(lines[0], JoinLines(lines[1..]));
      assert lines[0] + "\n" + JoinLines(lines[1..]) == lines[0] + ("\n" + JoinLines(lines[1..]));
    }
  }

  lemma {:induction false} SplitOneLine(line: string)
    requires OneLine(line)
    ensures SplitLines(line) == [line]
  {
    if line != "" {
      assert line[0] in line && line == [line[0]] + line[1..];
      SplitOneLine(line[1..]);
    }
  }

  lemma {:induction false} SplitAfterLine(line: string, rest: string)
    requires OneLine(line)
    ensures SplitLines(line + ("\n" + rest)) == [line] + SplitLines(rest)
  {
    var s := line + ("\n" + rest);
    if line == "" {
      assert s[0] == '\n' && s[1..] == rest;
    } else {
      assert line[0] in line && s[0] == line[0] && s[1..] == line[1..] + ("\n" + rest);
      SplitAfterLine(line[1..], rest);
      assert [line[0]] + line[1..] == line;
    }
  }

  // ---------- Fields ----------

  /** unicode.IsSpace: the characters that separate fields. */
  predicate IsSpace(c: char) {
    var n := c as int;
    || 9 <= n <= 13 || n == 32 || n == 0x85 || n == 0xA0
    || n == 0x1680 || 0x2000 <= n <= 0x200A || n == 0x2028 || n == 0x2029 || n == 0x202F || n == 0x205F || n == 0x3000
  }

  /** The white space of Unicode, written out. */
  const WHITE_SPACE :=
    "\t\n\U{0B}\U{0C}\r \U{85}\U{A0}\U{1680}\U{2000}\U{2001}\U{2002}\U{2003}\U{2004}\U{2005}\U{2006}\U{2007}" +
    "\U{2008}\U{2009}\U{200A}\U{2028}\U{2029}\U{202F}\U{205F}\U{3000}"

  lemma IsSpaceIff(c: char)
    ensures IsSpace(c) <==> c in WHITE_SPACE
  {
    if IsSpace(c) {
      var i := SpaceIndex(c);
      assert WHITE_SPACE[i] == c;
    }
  }

  ghost function SpaceIndex(c: char): (i: nat)
    requires IsSpace(c)
    ensures i < |WHITE_SPACE| && WHITE_SPACE[i] == c
  {
    var n := c as int;
    if n <= 13 then n - 9
    else if n == 32 then 5 else if n == 0x85 then 6 else if n == 0xA0 then 7 else if n == 0x1680 then 8
    else if n <= 0x200A then n - 0x2000 + 9
    else if n == 0x2028 then 20 else if n == 0x2029 then 21 else if n == 0x202F then 22
    else if n == 0x205F then 23 else 24
  }

  /** Characters that print, from '!' to '~', separate nothing; a tab, a carriage return and a blank do. */
  ghost predicate Printable(s: string) { s != "" && forall i :: 0 <= i < |s| ==> '!' <= s[i] <= '~' }

  ghost predicate Layout(s: string) { forall i :: 0 <= i < |s| ==> s[i] in " \t\r\U{0B}\U{0C}" }

  lemma FieldsOfPrintables(g0: string, name: string, g1: string, token: string, g2: string)
    requires Printable(name) && Printable(token) && Layout(g0) && Layout(g1) && Layout(g2) && g1 != ""
    ensures Fields(g0 + (name + (g1 + (token + g2)))) == [name, token]
  {
    assert Word(name) && Word(token);
    FieldsSkipBlank(g0, name + (g1 + (token + g2)));
    FieldsTakeWord(name, g1 + (token + g2));
    FieldsSkipBlank(g1, token + g2);
    FieldsTakeWord(token, g2);
    FieldsSkipBlank(g2, "");
    assert g2 + "" == g2;
  }

  /** The length of the longest prefix of `s` without a space. */
  function WordLength(s: string): (n: nat)
    ensures n <= |s| && (n < |s| ==> IsSpace(s[n]))
    ensures forall i :: 0 <= i < n ==> !IsSpace(s[i])
  {
    if s == "" || IsSpace(s[0]) then 0 else 1 + WordLength(s[1..])
  }

  function Fields(s: string): seq<string>
    decreases |s|
  {
    if s == "" then []
    else if IsSpace(s[0]) then Fields(s[1..])
    else [s[..WordLength(s)]] + Fields(s[WordLength(s)..])
  }

  ghost predicate Blank(s: string) { forall i :: 0 <= i < |s| ==> IsSpace(s[i]) }

  ghost predicate Word(s: string) { s != "" && forall i :: 0 <= i < |s| ==> !IsSpace(s[i]) }

  /** `words` with `gaps` before, between and after them. */
  function Weave(words: seq<string>, gaps: seq<string>): string
    requires |gaps| == |words| + 1
  {
    if words == [] then gaps[0] else gaps[0] + (words[0] + Weave(words[1..], gaps[1..]))
  }

  /** Blank gaps, nonempty where they keep two words apart. */
  ghost predicate Separate(words: seq<string>, gaps: seq<string>) {
    && |gaps| == |words| + 1
    && (forall i :: 0 <= i < |words| ==> Word(words[i]))
    && (forall i :: 0 <= i < |gaps| ==> Blank(gaps[i]))
    && (forall i :: 0 < i < |words| ==> gaps[i] != "")
  }

  /** Fields recovers the words whatever blanks and tabs surround and separate them. */
  lemma {:induction false} FieldsOfWeave(words: seq<string>, gaps: seq<string>)
    requires Separate(words, gaps)
    ensures Fields(Weave(words, gaps)) == words
    decreases |words|
  {
    if words == [] {
      FieldsSkipBlank(gaps[0], "");
      assert gaps[0] + "" == gaps[0];
    } else {
      var tail := Weave(words[1..], gaps[1..]);
      FieldsOfWeave(words[1..], gaps[1..]);
      FieldsSkipBlank(gaps[0], words[0] + tail);
      assert tail != "" ==> IsSpace(tail[0]) by {
        assert Blank(gaps[1]);
        if |words| > 1 {
          assert gaps[1] != "";
        }
      }
      FieldsTakeWord(words[0], tail);
      assert words == [words[0]] + words[1..];
    }
  }

  /** And every line is such a weave of its fields. */
  lemma {:induction false} WeaveOfFields(s: string) returns (gaps: seq<string>)
    ensures Separate(Fields(s), gaps) && Weave(Fields(s), gaps) == s
    decreases |s|
  {
    if s == "" {
      gaps := [""];
    } else if IsSpace(s[0]) {
      var rest := WeaveOfFields(s[1..]);
      gaps := [[s[0]] + rest[0]] + rest[1..];
      SpaceBefore(s[0], Fields(s), rest);
      assert s == [s[0]] + s[1..];
    } else {
      var n := WordLength(s);
      var rest := WeaveOfFields(s[n..]);
      gaps := [""] + rest;
      if Fields(s[n..]) != [] {
        LeadingGap(Fields(s[n..]), rest);
      }
      WordBefore(s[..n], Fields(s[n..]), rest);
      assert s == s[..n] + s[n..];
    }
  }

  lemma SpaceBefore(c: char, words: seq<string>, gaps: seq<string>)
    requires IsSpace(c) && Separate(words, gaps)
    ensures var gaps' := [[c] + gaps[0]] + gaps[1..];
            Separate(words, gaps') && Weave(words, gaps') == [c] + Weave(words, gaps)
  {
    var gaps' := [[c] + gaps[0]] + gaps[1..];
    assert forall i :: 0 < i < |gaps'| ==> gaps'[i] == gaps[i];
    assert Blank(gaps[0]);
    assert gaps'[1..] == gaps[1..];
    if words != [] {
      AppendIsAssociative([c], gaps[0], words[0] + Weave(words[1..], gaps[1..]));
    }
  }

  lemma WordBefore(word: string, words: seq<string>, gaps: seq<string>)
    requires Word(word) && Separate(words, gaps) && (words != [] ==> gaps[0] != "")
    ensures Separate([word] + words, [""] + gaps)
    ensures Weave([word] + words, [""] + gaps) == word + Weave(words, gaps)
  {
    var (words', gaps') := ([word] + words, [""] + gaps);
    assert words'[1..] == words && gaps'[1..] == gaps;
    forall i | 0 <= i < |words'|
      ensures Word(words'[i])
    {
      assert i > 0 ==> words'[i] == words[i - 1];
    }
    forall i | 0 <= i < |gaps'|
      ensures Blank(gaps'[i]) && (0 < i < |words'| ==> gaps'[i] != "")
    {
      assert i > 0 ==> gaps'[i] == gaps[i - 1];
    }
  }

  /** A weave that starts with a space starts with a gap. */
  lemma LeadingGap(words: seq<string>, gaps: seq<string>)
    requires Separate(words, gaps) && words != []
    requires Weave(words, gaps) != "" ==> IsSpace(Weave(words, gaps)[0])
    ensures gaps[0] != ""
  {
    var rest := words[0] + Weave(words[1..], gaps[1..]);
    assert rest[0] == words[0][0];
    assert Word(words[0]);
  }

  lemma {:induction false} FieldsSkipBlank(gap: string, rest: string)
    requires Blank(gap)
    ensures Fields(gap + rest) == Fields(rest)
    decreases |gap|
  {
    if gap == "" {
      assert gap + rest == rest;
    } else {
      assert (gap + rest)[1..] == gap[1..] + rest;
      FieldsSkipBlank(gap[1..], rest);
    }
  }

  lemma {:induction false} FieldsTakeWord(word: string, rest: string)
    requires Word(word) && (rest != "" ==> IsSpace(rest[0]))
    ensures Fields(word + rest) == [word] + Fields(rest)
  {
    var s := word + rest;
    var n := WordLength(s);
    assert forall i :: 0 <= i < |word| ==> s[i] == word[i];
    assert rest != "" ==> s[|word|] == rest[0];
    assert s[..n] == word && s[n..] == rest;
  }
}
