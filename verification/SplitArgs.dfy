/**
 Splitting a command line into arguments (internal/scriptrunner/runner.go, `SplitArgs`),
 and the quoting it undoes: single quotes, double quotes and backslashes, after
 section 2.2 of the POSIX.1-2017 Shell Command Language.
 */
module SplitArgs {
  import opened GoText
  import Wire

  /** The splitter between two characters: finished arguments, the one being read, and its flags. */
  datatype Scanner = Scanner(args: seq<string>, current: string, inSingle: bool, inDouble: bool, escaped: bool)
  {
    /** Outside quotes, with no backslash waiting. */
    predicate Plain() {
      !inSingle && !inDouble && !escaped
    }

    function Flush(): Scanner {
      if current == [] then this else this.(args := args + [current], current := [])
    }

    function Append(s: string): Scanner {
      this.(current := current + s)
    }
  }

  const START := Scanner([], [], false, false, false)

  predicate Separates(c: char) {
    c == ' ' || c == '\t' || c == '\n' || c == '\r'
  }

  function Feed(st: Scanner, c: char): Scanner {
    if st.escaped then st.Append([c]).(escaped := false)
    else if c == '\\' && !st.inSingle then st.(escaped := true)
    else if c == '\'' && !st.inDouble then st.(inSingle := !st.inSingle)
    else if c == '"' && !st.inSingle then st.(inDouble := !st.inDouble)
    else if Separates(c) && !st.inSingle && !st.inDouble then st.Flush()
    else st.Append([c])
  }

  function FeedAll(st: Scanner, s: string): Scanner {
    if s == [] then st else Feed(FeedAll(st, s[..|s| - 1]), s[|s| - 1])
  }

  /** A backslash at the very end stands for itself; open quotes end with the text. */
  function Finish(st: Scanner): seq<string> {
    (if st.escaped then st.Append("\\") else st).Flush().args
  }

  function ArgsOf(raw: string): seq<string> {
    if TrimSpace(raw) == [] then [] else Finish(FeedAll(START, TrimSpace(raw)))
  }

  method Split(raw: string) returns (args: seq<string>)
    ensures args == ArgsOf(raw)
  {
    var text := TrimSpace(raw);
    if text == "" {
      return [];
    }
    args := [];
    var current := "";
    var inSingle, inDouble, escaped := false, false, false;
    assert text[..|text|] == text;
    hide TrimSpace;
    for i := 0 to |text|
      invariant text[..|text|] == text
      invariant FeedAll(START, text[..i]) == Scanner(args, current, inSingle, inDouble, escaped)
    {
      var ch := text[i];
      assert text[..i + 1][..i] == text[..i];
      if escaped {
        current := current + [ch];
        escaped := false;
      } else if ch == '\\' && !inSingle {
        escaped := true;
      } else if ch == '\'' && !inDouble {
        inSingle := !inSingle;
      } else if ch == '"' && !inSingle {
        inDouble := !inDouble;
      } else if (ch == ' ' || ch == '\t' || ch == '\n' || ch == '\r') && !inSingle && !inDouble {
        if |current| > 0 {
          args := args + [current];
          current := "";
        }
      } else {
        current := current + [ch];
      }
    }
    if escaped {
      current := current + "\\";
    }
    if |current| > 0 {
      args := args + [current];
    }
  }

  // ---- no argument is empty ----

  ghost predicate NoneEmpty(args: seq<string>) {
    forall i :: 0 <= i < |args| ==> args[i] != []
  }

  lemma {:induction false} FeedAllNoneEmpty(st: Scanner, s: string)
    requires NoneEmpty(st.args)
    ensures NoneEmpty(FeedAll(st, s).args)
  {
    if s == [] {
    } else {
      FeedAllNoneEmpty(st, s[..|s| - 1]);
    }
  }

  lemma NoArgumentEmpty(raw: string)
    ensures NoneEmpty(ArgsOf(raw))
  {
    FeedAllNoneEmpty(START, TrimSpace(raw));
  }

  // ---- quoting ----

  lemma {:induction false} FeedConcat(st: Scanner, a: string, b: string)
    ensures FeedAll(st, a + b) == FeedAll(FeedAll(st, a), b)
    decreases |b|
  {
    if b == [] {
      assert a + b == a;
    } else {
      assert (a + b)[..|a + b| - 1] == a + b[..|b| - 1];
      FeedConcat(st, a, b[..|b| - 1]);
    }
  }

  lemma FeedOne(st: Scanner, c: char)
    ensures FeedAll(st, [c]) == Feed(st, c)
  {
    assert [c][..0] == [];
  }

  /** A part of a word, in one of the four ways to write it. */
  datatype Segment = Bare(c: char) | Escaped(c: char) | SingleQuoted(s: string) | DoubleQuoted(s: string)
  {
    predicate Valid() {
      match this
      case Bare(c) => !Separates(c) && c != '\\' && c != '\'' && c != '"'
      case SingleQuoted(s) => '\'' !in s
      case _ => true
    }

    function Text(): string {
      match this
      case Bare(c) => [c]
      case Escaped(c) => "\\" + [c]
      case SingleQuoted(s) => "'" + s + "'"
      case DoubleQuoted(s) => "\"" + Escapes(s) + "\""
    }

    function Meaning(): string {
      match this
      case Bare(c) => [c]
      case Escaped(c) => [c]
      case SingleQuoted(s) => s
      case DoubleQuoted(s) => s
    }
  }

  /** Inside double quotes, `"` and `\` are written behind a backslash. */
  function Escapes(s: string): string {
    if s == [] then []
    else
      var c := s[|s| - 1];
      Escapes(s[..|s| - 1]) + if c == '"' || c == '\\' then "\\" + [c] else [c]
  }

  lemma AppendTwice(st: Scanner, a: string, b: string)
    ensures st.Append(a).Append(b) == st.Append(a + b)
  {
    Wire.ConcatAssociative(st.current, a, b);
  }

  lemma {:induction false} FeedInSingle(st: Scanner, s: string)
    requires st.inSingle && !st.inDouble && !st.escaped && '\'' !in s
    ensures FeedAll(st, s) == st.Append(s)
  {
    if s == [] {
      assert st.current + [] == st.current;
    } else {
      var front, last := s[..|s| - 1], s[|s| - 1];
      FeedInSingle(st, front);
      assert last in s && front + [last] == s;
      AppendTwice(st, front, [last]);
    }
  }

  lemma FeedEscape(st: Scanner, c: char)
    requires !st.inSingle && !st.escaped
    ensures FeedAll(st, "\\" + [c]) == st.Append([c])
  {
    FeedConcat(st, "\\", [c]);
    FeedOne(st, '\\');
    FeedOne(Feed(st, '\\'), c);
  }

  lemma {:induction false} FeedInDouble(st: Scanner, s: string)
    requires st.inDouble && !st.inSingle && !st.escaped
    ensures FeedAll(st, Escapes(s)) == st.Append(s)
  {
    if s == [] {
      assert st.current + [] == st.current;
    } else {
      var front, last := s[..|s| - 1], s[|s| - 1];
      FeedInDouble(st, front);
      var code := if last == '"' || last == '\\' then "\\" + [last] else [last];
      FeedConcat(st, Escapes(front), code);
      var mid := st.Append(front);
      if last == '"' || last == '\\' {
        FeedEscape(mid, last);
      } else {
        FeedOne(mid, last);
      }
      assert front + [last] == s;
      AppendTwice(st, front, [last]);
    }
  }

  /** Outside quotes, a segment adds what it means to the current argument and changes nothing else. */
  lemma FeedSegment(st: Scanner, seg: Segment)
    requires st.Plain() && seg.Valid()
    ensures FeedAll(st, seg.Text()) == st.Append(seg.Meaning())
  {
    match seg
    case Bare(c) => FeedOne(st, c);
    case Escaped(c) => FeedEscape(st, c);
    case SingleQuoted(s) =>
      Between(st, '\'', s);
      FeedOne(st, '\'');
      FeedInSingle(Feed(st, '\''), s);
    case DoubleQuoted(s) =>
      Between(st, '"', Escapes(s));
      FeedOne(st, '"');
      FeedInDouble(Feed(st, '"'), s);
  }

  lemma Between(st: Scanner, q: char, s: string)
    ensures FeedAll(st, [q] + s + [q]) == Feed(FeedAll(FeedAll(st, [q]), s), q)
  {
    FeedConcat(st, [q], s);
    FeedConcat(st, [q] + s, [q]);
    FeedOne(FeedAll(st, [q] + s), q);
  }

  // ---- words and command lines ----

  type Word = seq<Segment>

  ghost predicate ValidWord(w: Word) {
    forall i :: 0 <= i < |w| ==> w[i].Valid()
  }

  function WordText(w: Word): string {
    if w == [] then [] else WordText(w[..|w| - 1]) + w[|w| - 1].Text()
  }

  function WordMeaning(w: Word): string {
    if w == [] then [] else WordMeaning(w[..|w| - 1]) + w[|w| - 1].Meaning()
  }

  lemma {:induction false} FeedWord(st: Scanner, w: Word)
    requires st.Plain() && ValidWord(w)
    ensures FeedAll(st, WordText(w)) == st.Append(WordMeaning(w))
  {
    if w == [] {
      assert st.current + [] == st.current;
    } else {
      var front, last := w[..|w| - 1], w[|w| - 1];
      hide Segment.Text, Segment.Meaning, Segment.Valid;
      FeedWord(st, front);
      FeedConcat(st, WordText(front), last.Text());
      FeedSegment(st.Append(WordMeaning(front)), last);
      AppendTwice(st, WordMeaning(front), last.Meaning());
    }
  }

  /** Read outside quotes, the text `t` adds `m` to the current argument and changes nothing else. */
  ghost predicate Reads(t: string, m: string) {
    forall st: Scanner :: st.Plain() ==> FeedAll(st, t) == st.Append(m)
  }

  ghost predicate AllRead(texts: seq<string>, meanings: seq<string>) {
    |texts| == |meanings| && forall i :: 0 <= i < |texts| ==> Reads(texts[i], meanings[i])
  }

  /** A separator before each text but the first. */
  function Line(texts: seq<string>, sep: char): string {
    if texts == [] then []
    else if |texts| == 1 then texts[0]
    else Line(texts[..|texts| - 1], sep) + [sep] + texts[|texts| - 1]
  }

  function WithoutEmpty(args: seq<string>): seq<string> {
    if args == [] then []
    else WithoutEmpty(args[..|args| - 1]) + if args[|args| - 1] == [] then [] else [args[|args| - 1]]
  }

  lemma FlushArguments(args: seq<string>, m: string)
    ensures Scanner(args, m, false, false, false).Flush()
            == Scanner(args + if m == [] then [] else [m], [], false, false, false)
  {
    assert args + [] == args;
  }

  lemma EmptyLine()
    ensures FeedAll(START, []) == START
  {
  }

  /** A separator and one more text. */
  lemma FeedNext(line: string, args: seq<string>, sep: char, t: string, m: string)
    requires Separates(sep) && Reads(t, m)
    requires FeedAll(START, line).Plain() && FeedAll(START, line).Flush() == START.(args := args)
    ensures FeedAll(START, line + [sep] + t) == Scanner(args, m, false, false, false)
  {
    hide FeedAll;
    var st := FeedAll(START, line);
    FeedConcat(START, line + [sep], t);
    FeedConcat(START, line, [sep]);
    FeedOne(st, sep);
    assert FeedAll(st.Flush(), t) == st.Flush().Append(m);
    assert [] + m == m;
  }

  lemma {:induction false} FeedLine(texts: seq<string>, meanings: seq<string>, sep: char)
    requires Separates(sep) && AllRead(texts, meanings)
    ensures var st := FeedAll(START, Line(texts, sep));
      st.Plain() && st.Flush() == START.(args := WithoutEmpty(meanings))
  {
    hide FeedAll, Scanner.Flush, Reads;
    EmptyLine();
    FlushArguments([], []);
    if texts == [] {
    } else {
      var front, last := texts[..|texts| - 1], texts[|texts| - 1];
      var before, m := meanings[..|texts| - 1], meanings[|texts| - 1];
      FeedLine(front, before, sep);
      FlushArguments(WithoutEmpty(before), m);
      if |texts| == 1 {
        FeedFirst(last, m);
        assert before == [];
      } else {
        FeedNext(Line(front, sep), WithoutEmpty(before), sep, last, m);
      }
    }
  }

  lemma FeedFirst(t: string, m: string)
    requires Reads(t, m)
    ensures FeedAll(START, t) == Scanner([], m, false, false, false)
  {
    hide FeedAll;
    assert FeedAll(START, t) == START.Append(m) && [] + m == m;
  }

  /**
   Splitting a line gives back what its texts read as, without the empty ones, if the line
   does not begin or end with white space (which would be trimmed, quoted or not).
   */
  lemma SplitLine(texts: seq<string>, meanings: seq<string>, sep: char)
    requires Separates(sep) && AllRead(texts, meanings) && TrimSpace(Line(texts, sep)) == Line(texts, sep)
    ensures ArgsOf(Line(texts, sep)) == WithoutEmpty(meanings)
  {
    hide FeedAll, TrimSpace, Line, AllRead, WithoutEmpty;
    FeedLine(texts, meanings, sep);
    EmptyLine();
  }

  function Texts(ws: seq<Word>): seq<string> {
    seq(|ws|, i requires 0 <= i < |ws| => WordText(ws[i]))
  }

  function Meanings(ws: seq<Word>): seq<string> {
    seq(|ws|, i requires 0 <= i < |ws| => WordMeaning(ws[i]))
  }

  lemma WordsRead(ws: seq<Word>)
    requires forall i :: 0 <= i < |ws| ==> ValidWord(ws[i])
    ensures AllRead(Texts(ws), Meanings(ws))
  {
    hide FeedAll, WordText, WordMeaning;
    forall i | 0 <= i < |ws| ensures Reads(WordText(ws[i]), WordMeaning(ws[i])) {
      forall st: Scanner | st.Plain() ensures FeedAll(st, WordText(ws[i])) == st.Append(WordMeaning(ws[i])) {
        FeedWord(st, ws[i]);
      }
    }
  }

  // ---- what trimming takes away ----

  function Total(args: seq<string>): nat {
    if args == [] then 0 else Total(args[..|args| - 1]) + |args[|args| - 1]|
  }

  /** The characters that would come out if the text ended here. */
  function Weight(st: Scanner): nat {
    Total(st.args) + |st.current| + if st.escaped then 1 else 0
  }

  lemma TotalAppend(args: seq<string>, a: string)
    ensures Total(args + [a]) == Total(args) + |a|
  {
    assert (args + [a])[..|args|] == args;
  }

  lemma FinishWeight(st: Scanner)
    ensures Total(Finish(st)) == Weight(st)
  {
    TotalAppend(st.args, st.current);
    TotalAppend(st.args, st.current + "\\");
  }

  /** A character adds to the weight what the flags alone decide. */
  function Gain(st: Scanner, c: char): nat {
    if st.escaped then 0
    else if c == '\\' && !st.inSingle then 1
    else if (c == '\'' && !st.inDouble) || (c == '"' && !st.inSingle) then 0
    else if Separates(c) && !st.inSingle && !st.inDouble then 0
    else 1
  }

  lemma FeedWeighs(st: Scanner, c: char)
    ensures Weight(Feed(st, c)) == Weight(st) + Gain(st, c)
  {
    TotalAppend(st.args, st.current);
  }

  predicate SameFlags(st: Scanner, other: Scanner) {
    st.inSingle == other.inSingle && st.inDouble == other.inDouble && st.escaped == other.escaped
  }

  /** So the same text adds the same weight to two scanners with the same flags, never taking any away. */
  lemma {:induction false} FeedAllWeighs(st: Scanner, other: Scanner, s: string)
    requires SameFlags(st, other)
    ensures SameFlags(FeedAll(st, s), FeedAll(other, s))
    ensures Weight(FeedAll(st, s)) - Weight(st) == Weight(FeedAll(other, s)) - Weight(other) >= 0
  {
    hide Weight;
    if s == [] {
    } else {
      var front, c := s[..|s| - 1], s[|s| - 1];
      FeedAllWeighs(st, other, front);
      FeedWeighs(FeedAll(st, front), c);
      FeedWeighs(FeedAll(other, front), c);
    }
  }

  lemma DropFirstWeighs(c: char, s: string)
    requires IsSpace(c)
    ensures Weight(FeedAll(START, [c] + s)) == Weight(FeedAll(START, s)) + if Separates(c) then 0 else 1
  {
    hide Weight, FeedAll, IsSpace;
    assert c != '\\' && c != '\'' && c != '"' by { SpacesAreBare(c); }
    FeedConcat(START, [c], s);
    FeedOne(START, c);
    FeedWeighs(START, c);
    FeedAllWeighs(START, Feed(START, c), s);
    assert Weight(START) == 0 by { StartWeighsNothing(); }
  }

  lemma SpacesAreBare(c: char)
    ensures IsSpace(c) ==> c != '\\' && c != '\'' && c != '"'
    ensures Separates(c) ==> IsSpace(c)
  {
  }

  lemma StartWeighsNothing()
    ensures Weight(START) == 0
  {
  }

  lemma {:induction false} TrimLeftWeighs(s: string)
    ensures Weight(FeedAll(START, TrimLeft(s))) <= Weight(FeedAll(START, s))
  {
    hide Weight, FeedAll, IsSpace;
    if s == [] || !IsSpace(s[0]) {
    } else {
      TrimLeftWeighs(s[1..]);
      DropFirstWeighs(s[0], s[1..]);
      assert [s[0]] + s[1..] == s;
    }
  }

  lemma {:induction false} TrimRightWeighs(s: string)
    ensures Weight(FeedAll(START, TrimRight(s))) <= Weight(FeedAll(START, s))
  {
    hide Weight, IsSpace;
    if s == [] || !IsSpace(s[|s| - 1]) {
    } else {
      var front := s[..|s| - 1];
      TrimRightWeighs(front);
      FeedWeighs(FeedAll(START, front), s[|s| - 1]);
    }
  }

  predicate AllSeparate(s: string) {
    forall i :: 0 <= i < |s| ==> Separates(s[i])
  }

  lemma {:induction false} TrimLeftPast(seps: string, t: string)
    requires AllSeparate(seps)
    ensures TrimLeft(seps + t) == TrimLeft(t)
    decreases |seps|
  {
    if seps == [] {
      assert seps + t == t;
    } else {
      SpacesAreBare(seps[0]);
      TrimLeftPast(seps[1..], t);
      assert (seps + t)[1..] == seps[1..] + t;
    }
  }

  lemma {:induction false} TrimRightPast(t: string, seps: string)
    requires AllSeparate(seps)
    ensures TrimRight(t + seps) == TrimRight(t)
    decreases |seps|
  {
    if seps == [] {
      assert t + seps == t;
    } else {
      var n := |seps| - 1;
      SpacesAreBare(seps[n]);
      TrimRightPast(t, seps[..n]);
      assert (t + seps)[..|t| + n] == t + seps[..n];
    }
  }

  /** Trimming the right end stays behind a character that is not a space. */
  lemma {:induction false} TrimRightBehind(a: string, b: string)
    requires b != [] && !IsSpace(b[0])
    ensures TrimRight(a + b) == a + TrimRight(b)
    decreases |b|
  {
    hide IsSpace;
    if !IsSpace(b[|b| - 1]) {
    } else {
      var n := |b| - 1;
      assert (a + b)[..|a| + n] == a + b[..n];
      TrimRightBehind(a, b[..n]);
    }
  }

  lemma {:induction false} FeedSeparators(st: Scanner, seps: string)
    requires st.Plain() && AllSeparate(seps)
    ensures FeedAll(st, seps).Plain() && Finish(FeedAll(st, seps)) == Finish(st)
    ensures st == START ==> FeedAll(st, seps) == START
  {
    if seps == [] {
    } else {
      var front, c := seps[..|seps| - 1], seps[|seps| - 1];
      SpacesAreBare(c);
      FeedSeparators(st, front);
    }
  }

  // ---- where a line begins and ends ----

  /** The words that are written with at least one segment. */
  function Written(ws: seq<Word>): seq<Word> {
    if ws == [] then []
    else Written(ws[..|ws| - 1]) + if ws[|ws| - 1] == [] then [] else [ws[|ws| - 1]]
  }

  lemma {:induction false} WrittenNotEmpty(ws: seq<Word>)
    ensures forall i :: 0 <= i < |Written(ws)| ==> Written(ws)[i] != [] && Written(ws)[i] in ws
  {
    if ws == [] {
    } else {
      var front, last := ws[..|ws| - 1], ws[|ws| - 1];
      WrittenNotEmpty(front);
      assert ws == front + [last];
    }
  }

  lemma LineGrows(ws: seq<Word>, sep: char)
    requires ws != []
    ensures var front, text := ws[..|ws| - 1], WordText(ws[|ws| - 1]);
      Line(Texts(ws), sep) == if |ws| == 1 then text else Line(Texts(front), sep) + [sep] + text
  {
    hide WordText;
    assert Texts(ws)[..|ws| - 1] == Texts(ws[..|ws| - 1]);
  }

  lemma NothingWritten(w: Word)
    ensures w == [] ==> WordText(w) == []
  {
  }

  lemma {:induction false} BlankLine(ws: seq<Word>, sep: char)
    requires Separates(sep) && Written(ws) == []
    ensures AllSeparate(Line(Texts(ws), sep))
  {
    hide WordText;
    if ws == [] {
    } else {
      var front, last := ws[..|ws| - 1], ws[|ws| - 1];
      LineGrows(ws, sep);
      NothingWritten(last);
      BlankLine(front, sep);
      assert Line(Texts(front), sep) + [sep] + [] == Line(Texts(front), sep) + [sep];
    }
  }

  /** A line begins with separators and the first word written. */
  lemma {:induction false} LineBegins(ws: seq<Word>, sep: char) returns (seps: string, tail: string)
    requires Separates(sep) && Written(ws) != []
    ensures Line(Texts(ws), sep) == seps + tail && AllSeparate(seps) && WordText(Written(ws)[0]) <= tail
  {
    hide WordText, Line, Texts;
    var front, last := ws[..|ws| - 1], ws[|ws| - 1];
    LineGrows(ws, sep);
    if Written(front) == [] {
      BlankLine(front, sep);
      seps, tail := if |ws| == 1 then [] else Line(Texts(front), sep) + [sep], WordText(last);
      assert [] + tail == tail;
    } else {
      seps, tail := LineBegins(front, sep);
      var more := [sep] + WordText(last);
      Wire.ConcatAssociative(Line(Texts(front), sep), [sep], WordText(last));
      Wire.ConcatAssociative(seps, tail, more);
      PrefixStays(WordText(Written(front)[0]), tail, more);
      tail := tail + more;
    }
  }

  lemma PrefixStays(a: string, b: string, c: string)
    requires a <= b
    ensures a <= b + c
  {
  }

  /** A line ends with the last word written and separators, and the text before is read outside quotes. */
  lemma {:induction false} LineEnds(ws: seq<Word>, sep: char) returns (head: string, seps: string)
    requires Separates(sep) && Written(ws) != [] && forall i :: 0 <= i < |ws| ==> ValidWord(ws[i])
    ensures var w := Written(ws)[|Written(ws)| - 1];
      Line(Texts(ws), sep) == head + WordText(w) + seps && AllSeparate(seps) && FeedAll(START, head).Plain()
  {
    hide WordText, Line, Texts, FeedAll, ValidWord;
    var front, last := ws[..|ws| - 1], ws[|ws| - 1];
    LineGrows(ws, sep);
    if last != [] {
      seps := [];
      if |ws| == 1 {
        head := [];
        EmptyLine();
        assert [] + WordText(last) + [] == WordText(last);
      } else {
        head := Line(Texts(front), sep) + [sep];
        PlainBefore(front, sep);
        assert head + WordText(last) + [] == head + WordText(last);
      }
    } else {
      NothingWritten(last);
      head, seps := LineEnds(front, sep);
      var w := WordText(Written(front)[|Written(front)| - 1]);
      assert (head + w + seps) + [sep] + [] == head + w + (seps + [sep]);
      seps := seps + [sep];
    }
  }

  lemma PlainBefore(ws: seq<Word>, sep: char)
    requires Separates(sep) && forall i :: 0 <= i < |ws| ==> ValidWord(ws[i])
    ensures FeedAll(START, Line(Texts(ws), sep) + [sep]).Plain()
  {
    hide FeedAll, Line, Texts, Meanings, ValidWord, AllRead;
    WordsRead(ws);
    FeedLine(Texts(ws), Meanings(ws), sep);
    FeedConcat(START, Line(Texts(ws), sep), [sep]);
    FeedOne(FeedAll(START, Line(Texts(ws), sep)), sep);
  }

  lemma {:induction false} WordBegins(w: Word)
    requires w != []
    ensures w[0].Text() <= WordText(w)
  {
    hide Segment.Text;
    if |w| == 1 {
      assert w[..0] == [] && [] + w[0].Text() == w[0].Text();
    } else {
      WordBegins(w[..|w| - 1]);
    }
  }

  // ---- when a line of words survives ----

  /** The segment would be trimmed at the beginning of a line. */
  predicate LostAtBegin(seg: Segment) {
    seg.Bare? && IsSpace(seg.c)
  }

  /** The segment would be trimmed, wholly or in part, at the end of a line. */
  predicate LostAtEnd(seg: Segment) {
    (seg.Bare? || seg.Escaped?) && IsSpace(seg.c)
  }

  predicate SurvivesTrimming(ws: seq<Word>) {
    var ne := Written(ws);
    ne == [] || (ne[0] != [] && ne[|ne| - 1] != []
                 && !LostAtBegin(ne[0][0]) && !LostAtEnd(ne[|ne| - 1][|ne[|ne| - 1]| - 1]))
  }

  lemma LostBeginning(line: string, seps: string, tail: string, seg: Segment)
    requires line == seps + tail && AllSeparate(seps) && seg.Text() <= tail && LostAtBegin(seg) && seg.Valid()
    ensures Finish(FeedAll(START, TrimSpace(line))) != Finish(FeedAll(START, line))
  {
    hide IsSpace, Weight, FeedAll, Finish;
    var t := tail[1..];
    assert tail == [seg.c] + t;
    TrimLeftPast(seps, tail);
    assert TrimLeft(line) == TrimLeft(t);
    TrimRightWeighs(TrimLeft(t));
    TrimLeftWeighs(t);
    DropFirstWeighs(seg.c, t);
    FeedSeparators(START, seps);
    FeedConcat(START, seps, tail);
    FinishWeight(FeedAll(START, TrimSpace(line)));
    FinishWeight(FeedAll(START, line));
  }

  lemma KeptBeginning(line: string, seps: string, tail: string, seg: Segment)
    requires line == seps + tail && AllSeparate(seps) && seg.Text() <= tail && !LostAtBegin(seg)
    ensures FeedAll(START, TrimSpace(line)) == FeedAll(START, TrimRight(line))
  {
    TextBegins(seg);
    assert tail[0] == seg.Text()[0];
    hide IsSpace, FeedAll;
    TrimLeftPast(seps, tail);
    TrimRightBehind(seps, tail);
    FeedSeparators(START, seps);
    FeedConcat(START, seps, TrimRight(tail));
  }

  lemma TextBegins(seg: Segment)
    ensures seg.Text() != [] && (IsSpace(seg.Text()[0]) ==> LostAtBegin(seg))
  {
  }

  lemma TextEnds(seg: Segment)
    ensures var t := seg.Text(); t != [] && (IsSpace(t[|t| - 1]) ==> LostAtEnd(seg))
  {
  }

  lemma KeptEnd(head: string, seg: Segment, seps: string)
    requires FeedAll(START, head).Plain() && seg.Valid() && AllSeparate(seps) && !LostAtEnd(seg)
    ensures var line := head + seg.Text() + seps;
      Finish(FeedAll(START, TrimRight(line))) == Finish(FeedAll(START, line))
  {
    TextEnds(seg);
    hide IsSpace, FeedAll, Finish, Segment.Text;
    var text := head + seg.Text();
    TrimRightPast(text, seps);
    assert text[|text| - 1] == seg.Text()[|seg.Text()| - 1];
    FeedConcat(START, head, seg.Text());
    FeedSegment(FeedAll(START, head), seg);
    FeedConcat(START, text, seps);
    FeedSeparators(FeedAll(START, text), seps);
  }

  lemma LostBareEnd(head: string, c: char, seps: string)
    requires FeedAll(START, head).Plain() && Bare(c).Valid() && AllSeparate(seps) && IsSpace(c)
    ensures var line := head + [c] + seps; Finish(FeedAll(START, TrimRight(line))) != Finish(FeedAll(START, line))
  {
    hide IsSpace, FeedAll, Finish, Weight;
    var text := head + [c];
    var st := FeedAll(START, head);
    TrimRightPast(text, seps);
    assert text[..|text| - 1] == head;
    TrimRightWeighs(head);
    FeedConcat(START, head, [c]);
    FeedOne(st, c);
    FeedWeighs(st, c);
    FeedConcat(START, text, seps);
    FeedAllWeighs(Feed(st, c), Feed(st, c), seps);
    FinishWeight(FeedAll(START, TrimRight(head)));
    FinishWeight(FeedAll(START, text + seps));
  }

  lemma LostEscapedEnd(head: string, c: char, seps: string)
    requires FeedAll(START, head).Plain() && AllSeparate(seps) && IsSpace(c)
    ensures var line := head + ("\\" + [c]) + seps;
      Finish(FeedAll(START, TrimRight(line))) != Finish(FeedAll(START, line))
  {
    SpacesAreBare(c);
    assert !IsSpace('\\');
    hide IsSpace, FeedAll;
    var st := FeedAll(START, head);
    var text := head + ("\\" + [c]);
    TrimRightPast(text, seps);
    assert text[..|text| - 1] == head + "\\";
    FeedConcat(START, head, "\\");
    FeedOne(st, '\\');
    FeedConcat(START, head, "\\" + [c]);
    FeedEscape(st, c);
    FeedConcat(START, text, seps);
    FeedSeparators(FeedAll(START, text), seps);
    EndsDiffer(st.args, st.current, c);
  }

  lemma EndsDiffer(args: seq<string>, current: string, c: char)
    requires c != '\\'
    ensures args + [current + "\\"] != args + [current + [c]]
  {
    var a, b := current + "\\", current + [c];
    assert a[|current|] != b[|current|];
    assert (args + [a])[|args|] != (args + [b])[|args|];
  }

  lemma EndDecides(head: string, seg: Segment, seps: string)
    requires FeedAll(START, head).Plain() && seg.Valid() && AllSeparate(seps)
    ensures var line := head + seg.Text() + seps;
      Finish(FeedAll(START, TrimRight(line))) == Finish(FeedAll(START, line)) <==> !LostAtEnd(seg)
  {
    hide IsSpace, FeedAll, Finish, TrimRight;
    if !LostAtEnd(seg) {
      KeptEnd(head, seg, seps);
    } else if seg.Bare? {
      LostBareEnd(head, seg.c, seps);
    } else {
      LostEscapedEnd(head, seg.c, seps);
    }
  }

  lemma WordEndDecides(head: string, w: Word, seps: string)
    requires FeedAll(START, head).Plain() && w != [] && ValidWord(w) && AllSeparate(seps)
    ensures var line := head + WordText(w) + seps;
      Finish(FeedAll(START, TrimRight(line))) == Finish(FeedAll(START, line)) <==> !LostAtEnd(w[|w| - 1])
  {
    var front, seg := w[..|w| - 1], w[|w| - 1];
    assert WordText(w) == WordText(front) + seg.Text();
    hide WordText, FeedAll, Finish, TrimRight, Segment.Text, LostAtEnd, AllSeparate;
    Wire.ConcatAssociative(head, WordText(front), seg.Text());
    PlainAfter(head, front);
    EndDecides(head + WordText(front), seg, seps);
  }

  lemma PlainAfter(head: string, w: Word)
    requires FeedAll(START, head).Plain() && ValidWord(w)
    ensures FeedAll(START, head + WordText(w)).Plain()
  {
    hide WordText, FeedAll;
    FeedConcat(START, head, WordText(w));
    FeedWord(FeedAll(START, head), w);
  }

  /** Trimming the line changes nothing exactly when neither end is a space written bare or, last, escaped. */
  lemma TrimmingDecides(ws: seq<Word>, sep: char)
    requires Separates(sep) && forall i :: 0 <= i < |ws| ==> ValidWord(ws[i])
    ensures var line := Line(Texts(ws), sep);
      Finish(FeedAll(START, TrimSpace(line))) == Finish(FeedAll(START, line)) <==> SurvivesTrimming(ws)
  {
    hide Line, Texts, FeedAll, Finish, WordText, ValidWord, TrimLeft, TrimRight, TrimSpace, LostAtBegin, LostAtEnd;
    var line, ne := Line(Texts(ws), sep), Written(ws);
    if ne == [] {
      BlankLine(ws, sep);
      BlankTrims(line);
    } else {
      WrittenNotEmpty(ws);
      var begin, tail := LineBegins(ws, sep);
      WordBegins(ne[0]);
      FirstIsValid(ne[0]);
      if LostAtBegin(ne[0][0]) {
        LostBeginning(line, begin, tail, ne[0][0]);
      } else {
        KeptBeginning(line, begin, tail, ne[0][0]);
        var head, seps := LineEnds(ws, sep);
        WordEndDecides(head, ne[|ne| - 1], seps);
      }
    }
  }

  lemma FirstIsValid(w: Word)
    requires w != [] && ValidWord(w)
    ensures w[0].Valid()
  {
  }

  lemma BlankTrims(line: string)
    requires AllSeparate(line)
    ensures Finish(FeedAll(START, TrimSpace(line))) == Finish(FeedAll(START, line))
  {
    TrimLeftPast(line, []);
    assert line + [] == line && TrimSpace(line) == [];
    FeedSeparators(START, line);
  }

  lemma ArgsAreFinished(raw: string)
    ensures ArgsOf(raw) == Finish(FeedAll(START, TrimSpace(raw)))
  {
    hide TrimSpace;
  }

  /**
   Splitting a line of words, each written in any mixture of the four ways, gives back what
   they mean, without the empty ones, if and only if the line does not begin with a bare
   space character and does not end with one that is bare or escaped.
   */
  lemma SplitUndoesQuoting(ws: seq<Word>, sep: char)
    requires Separates(sep) && forall i :: 0 <= i < |ws| ==> ValidWord(ws[i])
    ensures ArgsOf(Line(Texts(ws), sep)) == WithoutEmpty(Meanings(ws)) <==> SurvivesTrimming(ws)
  {
    hide Line, Texts, Meanings, FeedAll, TrimSpace, ValidWord, AllRead, SurvivesTrimming, WithoutEmpty, ArgsOf;
    WordsRead(ws);
    FeedLine(Texts(ws), Meanings(ws), sep);
    assert Finish(FeedAll(START, Line(Texts(ws), sep))) == WithoutEmpty(Meanings(ws));
    ArgsAreFinished(Line(Texts(ws), sep));
    TrimmingDecides(ws, sep);
  }

  /** White space at the end is trimmed even behind a backslash, which then stands for itself. */
  lemma EscapedEndIsTrimmed(c: char)
    requires !IsSpace(c) && Bare(c).Valid()
    ensures Reads([c, '\\', ' '], [c, ' '])
    ensures ArgsOf([c, '\\', ' ']) == [[c, '\\']]
  {
    hide FeedAll, IsSpace;
    TrimOneEnd(c);
    assert [c] + ['\\'] == [c, '\\'];
    FeedConcat(START, [c], ['\\']);
    FeedOne(START, c);
    FeedOne(Feed(START, c), '\\');
    assert Feed(START, c) == START.Append([c]) && [] + [c] == [c];
    assert [c] + "\\" == [c, '\\'];
    assert [c] + ("\\" + [' ']) == [c, '\\', ' '];
    forall st: Scanner | st.Plain() ensures FeedAll(st, [c, '\\', ' ']) == st.Append([c, ' ']) {
      FeedConcat(st, [c], "\\" + [' ']);
      FeedOne(st, c);
      FeedEscape(st.Append([c]), ' ');
      AppendTwice(st, [c], [' ']);
    }
  }

  lemma TrimOneEnd(c: char)
    requires !IsSpace(c)
    ensures TrimSpace([c, '\\', ' ']) == [c, '\\']
  {
    assert IsSpace(' ') && !IsSpace('\\');
    hide IsSpace;
    var s := [c, '\\', ' '];
    assert s[..2] == [c, '\\'];
    assert TrimLeft(s) == s && TrimRight(s) == TrimRight([c, '\\']);
  }

  // ---- single-quoting any text ----

  /** The text between single quotes, each `'` in it written `'\''`. */
  function QuoteBody(a: string): string {
    if a == [] then []
    else QuoteBody(a[..|a| - 1]) + if a[|a| - 1] == '\'' then "'\\''" else [a[|a| - 1]]
  }

  function Quote(a: string): string {
    "'" + QuoteBody(a) + "'"
  }

  function Quoted(args: seq<string>): seq<string> {
    seq(|args|, i requires 0 <= i < |args| => Quote(args[i]))
  }

  /** Inside single quotes, `'\''` ends the quotes, adds an escaped quote mark and opens them again. */
  lemma FeedMark(st: Scanner)
    requires st.inSingle && !st.inDouble && !st.escaped
    ensures FeedAll(st, "'\\''") == st.Append("'")
  {
    var out := st.(inSingle := false);
    assert "'\\''" == "'" + "\\''" && "\\''" == "\\'" + "'" && "\\'" == "\\" + ['\''];
    FeedConcat(st, "'", "\\''");
    FeedConcat(out, "\\'", "'");
    FeedOne(st, '\'');
    FeedEscape(out, '\'');
    FeedOne(out.Append("'"), '\'');
  }

  lemma {:induction false} FeedQuoteBody(st: Scanner, a: string)
    requires st.inSingle && !st.inDouble && !st.escaped
    ensures FeedAll(st, QuoteBody(a)) == st.Append(a)
  {
    if a == [] {
      assert st.current + [] == st.current;
    } else {
      var front, last := a[..|a| - 1], a[|a| - 1];
      FeedQuoteBody(st, front);
      var code := if last == '\'' then "'\\''" else [last];
      FeedConcat(st, QuoteBody(front), code);
      var mid := st.Append(front);
      if last == '\'' {
        FeedMark(mid);
      } else {
        FeedOne(mid, last);
      }
      assert front + [last] == a;
      AppendTwice(st, front, [last]);
    }
  }

  lemma QuoteReads(a: string)
    ensures Reads(Quote(a), a)
  {
    hide FeedAll, QuoteBody;
    forall st: Scanner | st.Plain() ensures FeedAll(st, Quote(a)) == st.Append(a) {
      Between(st, '\'', QuoteBody(a));
      FeedOne(st, '\'');
      FeedQuoteBody(Feed(st, '\''), a);
    }
  }

  lemma TrimNothing(s: string)
    requires s == [] || (!IsSpace(s[0]) && !IsSpace(s[|s| - 1]))
    ensures TrimSpace(s) == s
  {
  }

  lemma {:induction false} QuotedLineEnds(args: seq<string>)
    ensures var line := Line(Quoted(args), ' ');
      if args == [] then line == [] else line != [] && line[0] == '\'' && line[|line| - 1] == '\''
  {
    if args == [] {
    } else {
      hide QuoteBody;
      QuotedLineEnds(args[..|args| - 1]);
      assert Quoted(args)[..|args| - 1] == Quoted(args[..|args| - 1]);
    }
  }

  /** Quoting any list of texts and splitting the line gives the list back, without its empty texts. */
  lemma PosixRoundTrip(args: seq<string>)
    ensures ArgsOf(Line(Quoted(args), ' ')) == WithoutEmpty(args)
  {
    hide ArgsOf, TrimSpace, Line, Reads, WithoutEmpty, Quote;
    QuotedLineEnds(args);
    TrimNothing(Line(Quoted(args), ' '));
    forall i | 0 <= i < |args| ensures Reads(Quote(args[i]), args[i]) {
      QuoteReads(args[i]);
    }
    SplitLine(Quoted(args), args, ' ');
  }

  lemma {:induction false} WithoutEmptyLoses(args: seq<string>)
    ensures |WithoutEmpty(args)| <= |args|
    ensures WithoutEmpty(args) == args <==> NoneEmpty(args)
  {
    if args == [] {
    } else {
      var front, last := args[..|args| - 1], args[|args| - 1];
      WithoutEmptyLoses(front);
      assert args == front + [last];
    }
  }

  /** So the round trip is exact when, and only when, no text is empty. */
  lemma PosixRoundTripExactly(args: seq<string>)
    ensures ArgsOf(Line(Quoted(args), ' ')) == args <==> NoneEmpty(args)
  {
    hide ArgsOf, Quoted, Line, WithoutEmpty;
    PosixRoundTrip(args);
    WithoutEmptyLoses(args);
  }

  /** Tab, line feed, carriage return and space separate, and nothing else. */
  lemma SeparatorsAre(c: char)
    ensures Separates(c) <==> c as int == 9 || c as int == 10 || c as int == 13 || c as int == 32
  {
  }

  /** A quote left open ends with the text. */
  lemma OpenQuote(s: string)
    requires s != [] && !IsSpace(s[|s| - 1])
    ensures '\'' !in s ==> ArgsOf("'" + s) == [s]
    ensures ArgsOf("\"" + Escapes(s)) == [s]
  {
    if '\'' !in s {
      OpenSingle(s);
    }
    OpenDouble(s);
  }

  lemma OpenSingle(s: string)
    requires s != [] && !IsSpace(s[|s| - 1]) && '\'' !in s
    ensures ArgsOf("'" + s) == [s]
  {
    QuotesAreNoSpace();
    hide IsSpace, FeedAll, TrimSpace, ArgsOf;
    FeedConcat(START, "'", s);
    FeedOne(START, '\'');
    var open := START.(inSingle := true);
    assert Feed(START, '\'') == open;
    FeedInSingle(open, s);
    FinishOpen(open, s);
    hide Finish, Feed;
    ArgsOfTrimmed("'" + s);
  }

  lemma OpenDouble(s: string)
    requires s != [] && !IsSpace(s[|s| - 1])
    ensures ArgsOf("\"" + Escapes(s)) == [s]
  {
    QuotesAreNoSpace();
    EscapesEnd(s);
    hide IsSpace, FeedAll, TrimSpace, ArgsOf, Escapes;
    FeedConcat(START, "\"", Escapes(s));
    FeedOne(START, '"');
    var open := START.(inDouble := true);
    assert Feed(START, '"') == open;
    FeedInDouble(open, s);
    FinishOpen(open, s);
    hide Finish, Feed;
    ArgsOfTrimmed("\"" + Escapes(s));
  }

  lemma FinishOpen(st: Scanner, s: string)
    requires st.args == [] && st.current == [] && !st.escaped && s != []
    ensures Finish(st.Append(s)) == [s]
  {
    assert [] + s == s && [] + [s] == [s];
  }

  lemma QuotesAreNoSpace()
    ensures !IsSpace('\'') && !IsSpace('"')
  {
  }

  lemma EscapesEnd(s: string)
    requires s != []
    ensures Escapes(s) != [] && Escapes(s)[|Escapes(s)| - 1] == s[|s| - 1]
  {
  }

  lemma ArgsOfTrimmed(text: string)
    requires text != [] && !IsSpace(text[0]) && !IsSpace(text[|text| - 1])
    ensures ArgsOf(text) == Finish(FeedAll(START, text))
  {
    hide IsSpace, FeedAll, Finish;
    TrimIs([], text, []);
    assert [] + text + [] == text;
  }
}
