/** The launcher's command-line tokenizer, CmdLineArgs::ParseCmdLine. */
module CmdLine {
  import opened CText

  const QUOTE := '"'

  /** The first position from i on that is not whitespace. */
  function Skip(s: string, i: nat): (j: nat)
    requires i <= |s|
    ensures i <= j <= |s| && (j < |s| ==> !IsSpace(s[j]))
    ensures forall k :: i <= k < j ==> IsSpace(s[k])
    decreases |s| - i
  {
    if i < |s| && IsSpace(s[i]) then Skip(s, i + 1) else i
  }

  /** A quote at position i that whitespace or the end follows. */
  predicate Closes(s: string, i: nat)
    requires i < |s|
  {
    s[i] == QUOTE && (i + 1 == |s| || IsSpace(s[i + 1]))
  }

  /** Where the quoted token that covers position i ends: behind its closing quote, or at the
      end of the text if nothing closes it. */
  function QuotedEnd(s: string, i: nat): (e: nat)
    requires i <= |s|
    ensures i <= e <= |s| && (i < |s| ==> i < e)
    ensures forall k :: i <= k < e - 1 ==> !Closes(s, k)
    ensures e < |s| ==> IsSpace(s[e]) && e > i && s[e - 1] == QUOTE
    decreases |s| - i
  {
    if i == |s| then i
    else if Closes(s, i) then i + 1
    else QuotedEnd(s, i + 1)
  }

  function PlainEnd(s: string, i: nat): (e: nat)
    requires i <= |s|
    ensures i <= e <= |s| && (e < |s| ==> IsSpace(s[e]))
    ensures forall k :: i <= k < e ==> !IsSpace(s[k])
    decreases |s| - i
  {
    if i < |s| && !IsSpace(s[i]) then PlainEnd(s, i + 1) else i
  }

  /** Where the token that starts at position i ends. */
  function TokenEnd(s: string, i: nat): (e: nat)
    requires i <= |s|
    ensures i <= e <= |s| && (e < |s| ==> IsSpace(s[e]))
    ensures i < |s| && !IsSpace(s[i]) ==> i < e
  {
    if i < |s| && s[i] == QUOTE then QuotedEnd(s, i) else PlainEnd(s, i)
  }

  /** The tokens of the text from position i on. */
  function TokensFrom(s: string, i: nat): (ts: seq<string>)
    requires i <= |s|
    decreases |s| - i
  {
    if i == |s| then []
    else
      var p := Skip(s, i);
      var e := TokenEnd(s, p);
      [s[p..e]] + TokensFrom(s, if e < |s| then e + 1 else e)
  }

  function Tokenize(s: string): (ts: seq<string>) {
    TokensFrom(s, 0)
  }

  lemma FirstToken(s: string, i: nat)
    requires i < |s|
    ensures var p := Skip(s, i); var e := TokenEnd(s, p);
            TokensFrom(s, i) == [s[p..e]] + TokensFrom(s, if e < |s| then e + 1 else e)
  {
  }

  lemma NoToken(s: string)
    ensures TokensFrom(s, |s|) == []
  {
  }

  /** The C string that starts at position p of a buffer. */
  function TextAt(b: seq<char>, p: nat): (t: string)
    decreases |b| - p
  {
    if p >= |b| || b[p] == '\0' then [] else [b[p]] + TextAt(b, p + 1)
  }

  lemma {:induction false} TextIs(b: seq<char>, p: nat, e: nat)
    requires p <= e < |b| && b[e] == '\0' && '\0' !in b[p..e]
    ensures TextAt(b, p) == b[p..e]
    decreases e - p
  {
    if p < e {
      assert b[p..e] == [b[p]] + b[p + 1..e];
      TextIs(b, p + 1, e);
    }
  }

  class CmdLineArgs {
    var cmdline: array<char>
    var args: seq<nat>

    /** From position i on the buffer is still the text, with two terminators behind it. */
    ghost predicate Intact(text: CString, i: nat)
      reads this, cmdline
    {
      && cmdline.Length == |text| + 2
      && (forall k :: i <= k < |text| ==> cmdline[k] == text[k])
      && cmdline[|text|] == cmdline[|text| + 1] == '\0'
    }

    /** Only whitespace has been overwritten, with terminators. */
    ghost predicate OnlySpaces(text: CString)
      reads this, cmdline
      requires cmdline.Length == |text| + 2
    {
      forall k :: 0 <= k < |text| ==> cmdline[k] == text[k] || (IsSpace(text[k]) && cmdline[k] == '\0')
    }

    /** The copy of the command line in a buffer of two characters more, and its parse. */
    constructor (text: CString)
      ensures fresh(cmdline) && cmdline.Length == |text| + 2
      ensures |args| == |Tokenize(text)|
      ensures forall k :: 0 <= k < |args| ==> TextAt(cmdline[..], args[k]) == Tokenize(text)[k]
      ensures forall i :: 0 <= i < |text| ==> cmdline[i] == text[i] || (IsSpace(text[i]) && cmdline[i] == '\0')
    {
      var copy := new char[|text| + 2](i => if 0 <= i < |text| then text[i] else '\0');
      cmdline := copy;
      args := [];
      new;
      assert Intact(text, 0);
      Parse(text);
      assert OnlySpaces(text);
    }

    ghost predicate TokenAt(text: CString, p: nat, t: string, i: nat)
      reads this, cmdline
      requires cmdline.Length == |text| + 2
    {
      var e := p + |t|;
      && e <= |text| && (e < i || i == |text|) && cmdline[e] == '\0'
      && t == text[p..e] && (forall j :: p <= j < e ==> cmdline[j] == text[j])
    }

    /** The pushed positions are the starts of the tokens ts, each terminated in the buffer
        before position i, where i is the end of the text once all tokens are read. */
    ghost predicate Pushed(text: CString, i: nat, ts: seq<string>)
      reads this, cmdline
      requires cmdline.Length == |text| + 2
    {
      && |args| == |ts|
      && (forall k :: 0 <= k < |ts| ==> TokenAt(text, args[k], ts[k], i))
    }

    method SkipSpaces(ghost text: CString, start: nat) returns (i: nat)
      requires start <= |text| && Intact(text, start)
      ensures i == Skip(text, start)
    {
      i := start;
      while IsSpace(cmdline[i])
        invariant start <= i <= |text| && Skip(text, i) == Skip(text, start)
        decreases |text| - i
      {
        i := i + 1;
      }
    }

    /** The position of the closing quote, or the end of the text. */
    method FindClosingQuote(ghost text: CString, start: nat) returns (i: nat)
      requires start <= |text| && Intact(text, start)
      ensures start <= i <= |text|
      ensures QuotedEnd(text, start) == if i < |text| then i + 1 else i
    {
      i := start;
      while cmdline[i] != '\0' && !(cmdline[i] == QUOTE && (IsSpace(cmdline[i + 1]) || cmdline[i + 1] == '\0'))
        invariant start <= i <= |text| && QuotedEnd(text, i) == QuotedEnd(text, start)
        decreases |text| - i
      {
        i := i + 1;
      }
    }

    method FindSpace(ghost text: CString, start: nat) returns (i: nat)
      requires start <= |text| && Intact(text, start)
      ensures i == PlainEnd(text, start)
    {
      i := start;
      while cmdline[i] != '\0' && !IsSpace(cmdline[i])
        invariant start <= i <= |text| && PlainEnd(text, i) == PlainEnd(text, start)
        decreases |text| - i
      {
        i := i + 1;
      }
    }

    /** One turn of the main loop: pushes the next token and terminates it. */
    method NextToken(ghost text: CString, start: nat) returns (i: nat)
      requires start < |text| && Intact(text, start)
      modifies this`args, cmdline
      ensures var p := Skip(text, start); var e := TokenEnd(text, p);
              var g := if e < |text| then e + 1 else e;
              && args == old(args) + [p] && cmdline[e] == '\0'
              && (forall j :: 0 <= j < cmdline.Length && j != e ==> cmdline[j] == old(cmdline[j]))
              && i <= g && (i == g || (g == |text| && cmdline[i] == '\0'))
    {
      i := SkipSpaces(text, start);
      args := args + [i];
      if cmdline[i] == QUOTE {
        i := FindClosingQuote(text, i);
        if cmdline[i] != '\0' {
          i := i + 1;
          cmdline[i] := '\0';
          if cmdline[i + 1] != '\0' { i := i + 1; }
        }
      } else {
        i := FindSpace(text, i);
        if cmdline[i] != '\0' {
          cmdline[i] := '\0';
          i := i + 1;
        }
      }
    }

    lemma TextsOf(text: CString, ts: seq<string>)
      requires cmdline.Length == |text| + 2 && Pushed(text, |text|, ts)
      ensures forall k :: 0 <= k < |args| ==> TextAt(cmdline[..], args[k]) == ts[k]
    {
      forall k | 0 <= k < |args| ensures TextAt(cmdline[..], args[k]) == ts[k] {
        var p, e := args[k], args[k] + |ts[k]|;
        assert TokenAt(text, p, ts[k], |text|);
        assert cmdline[..][p..e] == text[p..e];
        TextIs(cmdline[..], p, e);
      }
    }

    method Parse(ghost text: CString)
      requires args == [] && Intact(text, 0)
      modifies this`args, cmdline
      ensures |args| == |Tokenize(text)| && OnlySpaces(text)
      ensures forall k :: 0 <= k < |args| ==> TextAt(cmdline[..], args[k]) == Tokenize(text)[k]
    {
      hide Skip, TokenEnd, TokensFrom, TextAt;
      var i: nat := 0;
      ghost var g: nat, ts: seq<string> := 0, [];
      while cmdline[i] != '\0'
        invariant i <= g <= |text| && Intact(text, g) && (i == g || (g == |text| && cmdline[i] == '\0'))
        invariant OnlySpaces(text) && Pushed(text, g, ts)
        invariant ts + TokensFrom(text, g) == Tokenize(text)
        decreases |text| - g
      {
        ghost var p := Skip(text, g);
        ghost var e := TokenEnd(text, p);
        ghost var before, start := ts, g;
        FirstToken(text, g);
        assert i == g;
        label Before:
        i := NextToken(text, i);
        g := if e < |text| then e + 1 else e;
        ts := ts + [text[p..e]];
        assert TokenAt(text, p, text[p..e], g);
        forall k | 0 <= k < |ts| - 1 ensures TokenAt(text, args[k], ts[k], g) {
          assert old@Before(TokenAt(text, args[k], before[k], start));
        }
      }
      NoToken(text);
      TextsOf(text, ts);
    }
  }

  /** A token that the tokenizer would read back: quoted to the first quote that whitespace
      follows, or without whitespace and leading quote. */
  predicate WellFormed(t: string) {
    && t != [] && '\0' !in t
    && if t[0] == QUOTE then
         t[|t| - 1] == QUOTE && forall k :: 0 <= k < |t| - 1 ==> !(t[k] == QUOTE && IsSpace(t[k + 1]))
       else forall k :: 0 <= k < |t| ==> !IsSpace(t[k])
  }

  /** The tokens with single spaces between them. */
  function Join(ts: seq<string>): (s: string) {
    if ts == [] then [] else if |ts| == 1 then ts[0] else ts[0] + " " + Join(ts[1..])
  }

  lemma {:induction false} SkipShift(a: string, s: string, i: nat)
    requires i <= |s|
    ensures Skip(a + s, |a| + i) == |a| + Skip(s, i)
    decreases |s| - i
  {
    if i < |s| && IsSpace(s[i]) { SkipShift(a, s, i + 1); }
  }

  lemma {:induction false} EndShift(a: string, s: string, i: nat)
    requires i <= |s|
    ensures TokenEnd(a + s, |a| + i) == |a| + TokenEnd(s, i)
    ensures QuotedEnd(a + s, |a| + i) == |a| + QuotedEnd(s, i)
    ensures PlainEnd(a + s, |a| + i) == |a| + PlainEnd(s, i)
    decreases |s| - i
  {
    if i < |s| { EndShift(a, s, i + 1); }
  }

  lemma SliceShift(a: string, s: string, p: nat, e: nat)
    requires p <= e <= |s|
    ensures (a + s)[|a| + p..|a| + e] == s[p..e]
  {
  }

  /** Tokenizing depends on the text from the current position on alone. */
  lemma {:induction false} TokensShift(a: string, s: string, i: nat)
    requires i <= |s|
    ensures TokensFrom(a + s, |a| + i) == TokensFrom(s, i)
    decreases |s| - i
  {
    hide Skip, TokenEnd, TokensFrom;
    if i == |s| {
      NoToken(s);
      NoToken(a + s);
    } else {
      SkipShift(a, s, i);
      var p := Skip(s, i);
      EndShift(a, s, p);
      var e := TokenEnd(s, p);
      SliceShift(a, s, p, e);
      TokensShift(a, s, if e < |s| then e + 1 else e);
      FirstToken(s, i);
      FirstToken(a + s, |a| + i);
    }
  }

  /** A text that is one token at the end of a line: what is quoted may lack its close. */
  predicate LastToken(t: string) {
    t != []
    && if t[0] == QUOTE then forall k :: 0 <= k < |t| - 1 ==> !(t[k] == QUOTE && IsSpace(t[k + 1]))
       else forall k :: 0 <= k < |t| ==> !IsSpace(t[k])
  }

  /** A well-formed token at the head of a text ends where it should. */
  lemma TokenAtHead(t: string, rest: string)
    requires WellFormed(t) && (rest == [] || IsSpace(rest[0]))
    ensures Skip(t + rest, 0) == 0 && TokenEnd(t + rest, 0) == |t|
  {
    var s := t + rest;
    var e := TokenEnd(s, 0);
    assert forall k :: 0 <= k < |t| ==> s[k] == t[k];
    assert rest != [] ==> s[|t|] == rest[0];
    if t[0] == QUOTE {
      assert Closes(s, |t| - 1);
    }
  }

  /** A last token is the only token of its text. */
  lemma TokenAlone(t: string)
    requires LastToken(t)
    ensures Tokenize(t) == [t]
  {
    hide TokensFrom;
    var e := TokenEnd(t, 0);
    FirstToken(t, 0);
    NoToken(t);
    assert t[0..|t|] == t;
  }

  /** Tokenizing undoes joining: well-formed tokens, and one last token, come back exactly. */
  lemma {:induction false} TokenizeJoined(ts: seq<string>)
    requires forall k :: 0 <= k < |ts| ==> if k < |ts| - 1 then WellFormed(ts[k]) else LastToken(ts[k])
    ensures Tokenize(Join(ts)) == ts
  {
    hide WellFormed, LastToken, TokensFrom, TokenEnd, Skip;
    if |ts| == 0 {
      NoToken("");
    } else if |ts| == 1 {
      TokenAlone(ts[0]);
      assert ts == [ts[0]];
    } else {
      var rest := " " + Join(ts[1..]);
      var s := Join(ts);
      assert s == ts[0] + rest;
      TokenAtHead(ts[0], rest);
      TokenizeJoined(ts[1..]);
      FirstToken(s, 0);
      assert s[0..|ts[0]|] == ts[0];
      assert s == (ts[0] + " ") + Join(ts[1..]);
      TokensShift(ts[0] + " ", Join(ts[1..]), 0);
      assert ts == [ts[0]] + ts[1..];
    }
  }

  lemma WellFormedIsLast(t: string)
    ensures WellFormed(t) ==> LastToken(t)
  {
  }

  lemma PieceIsLast(s: string, p: nat)
    requires p <= |s| && (p < |s| ==> !IsSpace(s[p]))
    ensures var t := s[p..TokenEnd(s, p)]; t == "" || LastToken(t)
  {
    var t := s[p..TokenEnd(s, p)];
    forall k | 0 <= k < |t| - 1 && s[p] == QUOTE ensures !(t[k] == QUOTE && IsSpace(t[k + 1])) {
      assert !Closes(s, p + k);
    }
  }

  /** Every token of any text is a last token, unless it is empty. */
  lemma {:induction false} TokensAreLast(s: string, i: nat)
    requires i <= |s|
    ensures forall k :: 0 <= k < |TokensFrom(s, i)| ==> TokensFrom(s, i)[k] == "" || LastToken(TokensFrom(s, i)[k])
    decreases |s| - i
  {
    hide TokensFrom, TokenEnd, Skip, LastToken;
    if i < |s| {
      var p := Skip(s, i);
      var e := TokenEnd(s, p);
      TokensAreLast(s, if e < |s| then e + 1 else e);
      FirstToken(s, i);
      PieceIsLast(s, p);
    } else {
      NoToken(s);
    }
  }

  lemma TerminatedToken(s: CString, p: nat)
    requires p < |s| && !IsSpace(s[p]) && TokenEnd(s, p) < |s|
    ensures WellFormed(s[p..TokenEnd(s, p)])
  {
    var e := TokenEnd(s, p);
    var t := s[p..e];
    forall k | 0 <= k < |t| - 1 && s[p] == QUOTE ensures !(t[k] == QUOTE && IsSpace(t[k + 1])) {
      assert !Closes(s, p + k);
    }
  }

  /** Every token of any text, except perhaps the last, is well formed. */
  lemma {:induction false} OnlyLastIllFormed(s: CString, i: nat)
    requires i <= |s|
    ensures forall k :: 0 <= k < |TokensFrom(s, i)| - 1 ==> WellFormed(TokensFrom(s, i)[k])
    decreases |s| - i
  {
    if i < |s| {
      var p := Skip(s, i);
      var e := TokenEnd(s, p);
      if e < |s| {
        OnlyLastIllFormed(s, e + 1);
        TerminatedToken(s, p);
      } else {
        NoToken(s);
      }
    }
  }

  /** Quotes keep a text without quotes together, with all spaces in it, exactly unless a space comes
      first: then the opening quote counts as the closing one. */
  lemma QuotedText(t: string)
    requires '"' !in t && '\0' !in t
    ensures Tokenize("\"" + t + "\"") == ["\"" + t + "\""] <==> t == "" || !IsSpace(t[0])
  {
    hide TokensFrom;
    var q := "\"" + t + "\"";
    if t == "" || !IsSpace(t[0]) {
      forall k | 0 <= k < |q| - 1 ensures !(q[k] == QUOTE && IsSpace(q[k + 1])) {
        if k > 0 { assert q[k] == t[k - 1]; }
      }
      TokenAlone(q);
    } else {
      assert Closes(q, 0);
      FirstToken(q, 0);
      assert q[1] == t[0] && Skip(q, 0) == 0 && TokenEnd(q, 0) == 1;
      assert Tokenize(q)[0] == q[0..1] != q;
    }
  }

  predicate Blank(t: string) {
    forall k :: 0 <= k < |t| ==> IsSpace(t[k])
  }

  /** The text of the gaps and the tokens in turn, starting and ending with a gap. */
  function Interleaved(gaps: seq<string>, ts: seq<string>): (s: string)
    requires |gaps| == |ts| + 1
  {
    if ts == [] then gaps[0] else gaps[0] + ts[0] + Interleaved(gaps[1..], ts[1..])
  }

  lemma InterleavedHead(gap: string, t: string, gaps: seq<string>, ts: seq<string>)
    requires |gaps| == |ts| + 1
    ensures Interleaved([gap] + gaps, [t] + ts) == gap + t + Interleaved(gaps, ts)
  {
    assert ([gap] + gaps)[1..] == gaps && ([t] + ts)[1..] == ts;
  }

  lemma GapExtended(c: string, gaps: seq<string>, ts: seq<string>)
    requires |gaps| == |ts| + 1
    ensures Interleaved([c + gaps[0]] + gaps[1..], ts) == c + Interleaved(gaps, ts)
  {
    var longer := [c + gaps[0]] + gaps[1..];
    if ts != [] {
      assert longer[1..] == gaps[1..];
      var more := Interleaved(gaps[1..], ts[1..]);
      assert c + gaps[0] + ts[0] + more == c + (gaps[0] + ts[0] + more);
    }
  }

  lemma TokenBetween(s: string, i: nat, p: nat, e: nat, g: nat, more: seq<string>, ts: seq<string>)
    returns (gaps: seq<string>)
    requires i <= p <= e <= g <= |s| && g <= e + 1 && Blank(s[i..p]) && Blank(s[e..g])
    requires |more| == |ts| + 1 && (forall k :: 0 <= k < |more| ==> Blank(more[k])) && s[g..] == Interleaved(more, ts)
    ensures |gaps| == |ts| + 2 && forall k :: 0 <= k < |gaps| ==> Blank(gaps[k])
    ensures s[i..] == Interleaved(gaps, [s[p..e]] + ts)
  {
    hide Interleaved;
    var longer := [s[e..g] + more[0]] + more[1..];
    GapExtended(s[e..g], more, ts);
    gaps := [s[i..p]] + longer;
    InterleavedHead(s[i..p], s[p..e], longer, ts);
    assert s[i..] == s[i..p] + s[p..e] + (s[e..g] + s[g..]);
  }

  /** The tokenizer loses, moves and invents nothing: the text is its tokens in order, with
      nothing but whitespace around them. */
  lemma {:induction false} NothingLost(s: string, i: nat) returns (gaps: seq<string>)
    requires i <= |s|
    ensures |gaps| == |TokensFrom(s, i)| + 1 && forall k :: 0 <= k < |gaps| ==> Blank(gaps[k])
    ensures s[i..] == Interleaved(gaps, TokensFrom(s, i))
    decreases |s| - i
  {
    hide TokensFrom, TokenEnd, Skip;
    if i == |s| {
      NoToken(s);
      gaps := [""];
    } else {
      var p := Skip(s, i);
      var e := TokenEnd(s, p);
      FirstToken(s, i);
      var g := if e < |s| then e + 1 else e;
      var more := NothingLost(s, g);
      gaps := TokenBetween(s, i, p, e, g, more, TokensFrom(s, g));
    }
  }
}
