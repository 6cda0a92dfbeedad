/**
 The string functions of Go's standard library the scheduler relies on: `strings.Fields`,
 `strings.Split`, `strings.Join`, `strings.TrimSpace` and `strconv.Atoi`. Strings are
 sequences of characters; text that is not valid UTF-8 is not modelled.
 */
module GoText {
  import opened Wrappers

  /** `unicode.IsSpace`. */
  predicate IsSpace(c: char) {
    || c == ' ' || ('\t' <= c <= '\r') || c == '\U{85}' || c == '\U{A0}' || c == '\U{1680}'
    || '\U{2000}' <= c <= '\U{200a}' || c == '\U{2028}' || c == '\U{2029}' || c == '\U{202f}'
    || c == '\U{205f}' || c == '\U{3000}'
  }

  predicate IsDigit(c: char) {
    '0' <= c <= '9'
  }

  // ---- splitting and joining ----

  /** `strings.Split(s, sep)`, with `piece` already read of the first part. */
  function SplitFrom(s: string, sep: char, piece: string): (r: seq<string>)
    ensures r != []
  {
    if s == [] then [piece]
    else if s[0] == sep then [piece] + SplitFrom(s[1..], sep, [])
    else SplitFrom(s[1..], sep, piece + [s[0]])
  }

  function Split(s: string, sep: char): seq<string> {
    SplitFrom(s, sep, [])
  }

  function Join(parts: seq<string>, sep: char): string
  {
    if parts == [] then []
    else if |parts| == 1 then parts[0]
    else parts[0] + [sep] + Join(parts[1..], sep)
  }

  lemma {:induction false} SplitReadsPart(p: string, rest: string, sep: char, piece: string)
    requires sep !in p
    ensures SplitFrom(p + rest, sep, piece) == SplitFrom(rest, sep, piece + p)
    decreases |p|
  {
    if p == [] {
      assert p + rest == rest && piece + p == piece;
    } else {
      assert (p + rest)[0] == p[0] && (p + rest)[1..] == p[1..] + rest;
      assert (piece + [p[0]]) + p[1..] == piece + p;
      SplitReadsPart(p[1..], rest, sep, piece + [p[0]]);
    }
  }

  /** Splitting undoes joining when there is something to join and no part holds the separator. */
  lemma {:induction false} SplitOfJoin(parts: seq<string>, sep: char)
    requires parts != [] && forall i :: 0 <= i < |parts| ==> sep !in parts[i]
    ensures Split(Join(parts, sep), sep) == parts
  {
    var p := parts[0];
    if |parts| == 1 {
      SplitReadsPart(p, [], sep, []);
      assert p + [] == p && [] + p == p && parts == [p];
    } else {
      var tail := Join(parts[1..], sep);
      var rest := [sep] + tail;
      assert Join(parts, sep) == p + rest;
      SplitReadsPart(p, rest, sep, []);
      assert [] + p == p && rest[1..] == tail;
      SplitOfJoin(parts[1..], sep);
      assert parts == [p] + parts[1..];
    }
  }

  /** `strings.Fields(s)`, with `word` already read of the current field. */
  function FieldsFrom(s: string, word: string): seq<string> {
    var done := if word == [] then [] else [word];
    if s == [] then done
    else if IsSpace(s[0]) then done + FieldsFrom(s[1..], [])
    else FieldsFrom(s[1..], word + [s[0]])
  }

  function Fields(s: string): seq<string> {
    FieldsFrom(s, [])
  }

  predicate IsWord(w: string) {
    w != [] && forall i :: 0 <= i < |w| ==> !IsSpace(w[i])
  }

  predicate AllWords(ws: seq<string>) {
    forall i :: 0 <= i < |ws| ==> IsWord(ws[i])
  }

  lemma {:induction false} FieldsAreWords(s: string, word: string)
    requires word == [] || IsWord(word)
    ensures AllWords(FieldsFrom(s, word))
    decreases |s|
  {
    if s == [] {
    } else {
      if IsSpace(s[0]) {
        FieldsAreWords(s[1..], []);
      } else {
        FieldsAreWords(s[1..], word + [s[0]]);
      }
    }
  }

  lemma {:induction false} FieldsReadWord(w: string, rest: string, word: string)
    requires forall i :: 0 <= i < |w| ==> !IsSpace(w[i])
    ensures FieldsFrom(w + rest, word) == FieldsFrom(rest, word + w)
    decreases |w|
  {
    if w == [] {
      assert w + rest == rest && word + w == word;
    } else {
      assert (w + rest)[0] == w[0] && (w + rest)[1..] == w[1..] + rest;
      assert (word + [w[0]]) + w[1..] == word + w;
      FieldsReadWord(w[1..], rest, word + [w[0]]);
    }
  }

  lemma FieldsOfWord(w: string, tail: string)
    requires IsWord(w)
    ensures Fields(w + ([' '] + tail)) == [w] + Fields(tail)
  {
    var rest := [' '] + tail;
    FieldsReadWord(w, rest, []);
    assert [] + w == w && rest[1..] == tail;
  }

  lemma {:induction false} FieldsOfJoin(ws: seq<string>)
    requires AllWords(ws)
    ensures Fields(Join(ws, ' ')) == ws
  {
    if ws == [] {
    } else if |ws| == 1 {
      FieldsReadWord(ws[0], [], []);
      assert ws[0] + [] == ws[0] && [] + ws[0] == ws[0] && ws == [ws[0]];
    } else {
      var w, tail := ws[0], Join(ws[1..], ' ');
      assert Join(ws, ' ') == w + ([' '] + tail);
      FieldsOfJoin(ws[1..]);
      FieldsOfWord(w, tail);
      assert ws == [w] + ws[1..];
    }
  }

  // ---- trimming ----

  function TrimLeft(s: string): string {
    if s != [] && IsSpace(s[0]) then TrimLeft(s[1..]) else s
  }

  function TrimRight(s: string): string {
    if s != [] && IsSpace(s[|s| - 1]) then TrimRight(s[..|s| - 1]) else s
  }

  /** `strings.TrimSpace`. */
  function TrimSpace(s: string): string {
    TrimRight(TrimLeft(s))
  }

  // ---- finding a character ----

  /** `strings.IndexByte(s, c)`, `None` for -1. */
  function IndexOf(s: string, c: char): (r: Option<nat>)
    ensures r.None? ==> c !in s
    ensures r.Some? ==> r.value < |s| && s[r.value] == c && c !in s[..r.value]
  {
    if s == [] then None
    else if s[0] == c then Some(0)
    else
      match IndexOf(s[1..], c)
      case None => None
      case Some(i) =>
        assert s[..i + 1] == [s[0]] + s[1..][..i];
        Some(i + 1)
  }

  lemma IndexBehind(p: string, c: char, rest: string)
    requires c !in p
    ensures IndexOf(p + [c] + rest, c) == Some(|p|)
    ensures (p + [c] + rest)[..|p|] == p && (p + [c] + rest)[|p| + 1..] == rest
  {
    var s := p + [c] + rest;
    assert s[|p|] == c && s[..|p|] == p;
    assert c in s;
    FirstIsUnique(s, c, |p|, IndexOf(s, c).value);
  }

  lemma FirstIsUnique(s: string, c: char, i: nat, j: nat)
    requires i < |s| && j < |s| && s[i] == s[j] == c && c !in s[..i] && c !in s[..j]
    ensures i == j
  {
    assert forall k :: 0 <= k < i ==> s[k] == s[..i][k];
    assert forall k :: 0 <= k < j ==> s[k] == s[..j][k];
  }

  // ---- numbers ----

  const MIN_INT := -0x8000_0000_0000_0000
  const MAX_INT := 0x7fff_ffff_ffff_ffff

  predicate AllDigits(s: string) {
    forall i :: 0 <= i < |s| ==> IsDigit(s[i])
  }

  function DecimalValue(s: string): nat
    requires AllDigits(s)
  {
    if s == [] then 0
    else 10 * DecimalValue(s[..|s| - 1]) + (s[|s| - 1] as int - '0' as int)
  }

  /** `strconv.Atoi`: an optional sign, then one or more digits, within 64 bits. */
  function Atoi(s: string): Option<int> {
    var signed := s != [] && (s[0] == '-' || s[0] == '+');
    var digits := if signed then s[1..] else s;
    if digits == [] || !AllDigits(digits) then None
    else
      var size: int := DecimalValue(digits);
      var n := if signed && s[0] == '-' then -size else size;
      if MIN_INT <= n <= MAX_INT then Some(n) else None
  }

  function Digit(d: nat): (c: char)
    requires d < 10
    ensures IsDigit(c) && c as int == '0' as int + d
  {
    '0' + d as char
  }

  /** The decimal form of `n`, with no sign and no leading zero. */
  function Decimal(n: nat): (s: string)
    ensures s != [] && AllDigits(s)
  {
    if n < 10 then [Digit(n)] else Decimal(n / 10) + [Digit(n % 10)]
  }

  lemma {:induction false} DecimalRoundTrip(n: nat)
    ensures DecimalValue(Decimal(n)) == n
  {
    var s := Decimal(n);
    if n >= 10 {
      DecimalRoundTrip(n / 10);
      assert s[..|s| - 1] == Decimal(n / 10);
    } else {
      assert s[..|s| - 1] == [];
    }
  }

  lemma DecimalIsPlain(n: nat, c: char)
    requires !IsDigit(c)
    ensures c !in Decimal(n)
  {
  }

  lemma DecimalIsWord(n: nat)
    ensures IsWord(Decimal(n))
  {
    var s := Decimal(n);
    forall i | 0 <= i < |s| ensures !IsSpace(s[i]) {
      assert IsDigit(s[i]);
    }
  }

  lemma WordsConcat(a: string, b: string)
    requires IsWord(a) && IsWord(b)
    ensures IsWord(a + b)
  {
  }

  /** Words joined by a character that is no space are a word. */
  lemma {:induction false} JoinIsWord(parts: seq<string>, sep: char)
    requires parts != [] && AllWords(parts) && !IsSpace(sep)
    ensures IsWord(Join(parts, sep))
  {
    hide IsSpace;
    if |parts| == 1 {
      assert Join(parts, sep) == parts[0];
    } else {
      JoinIsWord(parts[1..], sep);
      WordsConcat([sep], Join(parts[1..], sep));
      WordsConcat(parts[0], [sep] + Join(parts[1..], sep));
      assert Join(parts, sep) == parts[0] + ([sep] + Join(parts[1..], sep));
    }
  }

  lemma AtoiOfDecimal(n: nat)
    requires n <= MAX_INT
    ensures Atoi(Decimal(n)) == Some(n)
  {
    DecimalRoundTrip(n);
    assert IsDigit(Decimal(n)[0]);
  }

  // ---- characters and numbers one by one ----

  /** By code point. */
  lemma Characters(c: char)
    ensures IsDigit(c) <==> 48 <= c as int <= 57
    ensures IsSpace(c) <==>
      || 9 <= c as int <= 13 || c as int == 32 || c as int == 0x85 || c as int == 0xa0 || c as int == 0x1680
      || 0x2000 <= c as int <= 0x200a || c as int == 0x2028 || c as int == 0x2029 || c as int == 0x202f
      || c as int == 0x205f || c as int == 0x3000
  {
  }

  /** Either sign is read, up to 64 bits; a sign alone is no number. */
  lemma AtoiSigned(n: nat)
    ensures Atoi(Decimal(n)) == if n <= 0x7fff_ffff_ffff_ffff then Some(n) else None
    ensures Atoi("+" + Decimal(n)) == if n <= 0x7fff_ffff_ffff_ffff then Some(n) else None
    ensures var minus: int := 0 - n; Atoi("-" + Decimal(n)) == if n <= 0x8000_0000_0000_0000 then Some(minus) else None
    ensures Atoi("") == Atoi("+") == Atoi("-") == None
  {
    DecimalRoundTrip(n);
    var s := Decimal(n);
    assert IsDigit(s[0]);
    hide Decimal, DecimalValue;
    assert ("+" + s)[1..] == s && ("-" + s)[1..] == s;
    assert "+"[1..] == [] && "-"[1..] == [];
  }

  /** Anything but digits, behind the sign, is refused. */
  lemma AtoiRefuses(s: string, i: nat)
    requires i < |s| && !IsDigit(s[i]) && !(i == 0 && (s[0] == '+' || s[0] == '-'))
    ensures Atoi(s) == None
  {
    if i > 0 {
      assert s[1..][i - 1] == s[i];
    }
  }

  ghost predicate AllSpaces(s: string) {
    forall i :: 0 <= i < |s| ==> IsSpace(s[i])
  }

  /** Space around a word is passed over, however much of it and of whatever kind. */
  lemma {:induction false} FieldsSpaced(before: string, w: string, gap: string, rest: string)
    requires AllSpaces(before) && IsWord(w) && AllSpaces(gap) && gap != []
    ensures Fields(before + w + gap + rest) == [w] + Fields(rest) && Fields(before) == []
  {
    hide IsSpace;
    FieldsSkip(before, w + (gap + rest));
    assert before + w + gap + rest == before + (w + (gap + rest));
    FieldsReadWord(w, gap + rest, []);
    assert [] + w == w && (gap + rest)[1..] == gap[1..] + rest && (gap + rest)[0] == gap[0];
    FieldsSkip(gap[1..], rest);
    FieldsSkip(before, []);
    assert before + [] == before;
  }

  lemma {:induction false} FieldsSkip(gap: string, rest: string)
    requires AllSpaces(gap)
    ensures Fields(gap + rest) == Fields(rest)
    decreases |gap|
  {
    hide IsSpace;
    if gap == [] {
      assert gap + rest == rest;
    } else {
      assert (gap + rest)[0] == gap[0] && (gap + rest)[1..] == gap[1..] + rest;
      FieldsSkip(gap[1..], rest);
    }
  }

  /** Trimming takes the space off both ends and nothing else. */
  lemma TrimIs(before: string, text: string, after: string)
    requires AllSpaces(before) && AllSpaces(after) && text != []
    requires !IsSpace(text[0]) && !IsSpace(text[|text| - 1])
    ensures TrimSpace(before + text + after) == text && TrimSpace(before) == []
  {
    hide IsSpace;
    assert before + text + after == before + (text + after);
    LeftTrimmed(before, text + after);
    RightTrimmed(text, after);
    LeftTrimmed(before, []);
    assert before + [] == before;
  }

  lemma {:induction false} LeftTrimmed(before: string, rest: string)
    requires AllSpaces(before) && (rest != [] ==> !IsSpace(rest[0]))
    ensures TrimLeft(before + rest) == rest
    decreases |before|
  {
    hide IsSpace;
    if before == [] {
      assert before + rest == rest;
    } else {
      assert (before + rest)[1..] == before[1..] + rest;
      LeftTrimmed(before[1..], rest);
    }
  }

  lemma {:induction false} RightTrimmed(text: string, after: string)
    requires AllSpaces(after) && text != [] && !IsSpace(text[|text| - 1])
    ensures TrimRight(text + after) == text
    decreases |after|
  {
    hide IsSpace;
    if after == [] {
      assert text + after == text;
    } else {
      assert (text + after)[..|text + after| - 1] == text + after[..|after| - 1];
      RightTrimmed(text, after[..|after| - 1]);
    }
  }
}
