/** Splitting one line of a BDF font file into tokens (bdf/bdf.go:93-154).
    Quoted strings may begin anywhere on a line, a doubled quote inside them
    stands for one quote, and once a line's first token is COMMENT quotes
    are ordinary characters. */
module BdfTokenize {
  import opened Wrappers

  predicate IsBlank(c: char) { c == ' ' || c == '\t' }

  /** The tokenizer's variables between two characters: tokens emitted so
      far, the token being built, and whether a quoted string is open and
      its closing quote has just been seen. */
  datatype TokState = TokState(tokens: seq<string>, token: string, quotes: bool, escape: bool)

  const Start := TokState([], [], false, false)

  predicate CommentLine(st: TokState)
  {
    |st.tokens| >= 1 && st.tokens[0] == "COMMENT"
  }

  function Step(st: TokState, c: char): (r: TokState)
    ensures |st.tokens| <= |r.tokens| <= |st.tokens| + 1
    ensures r.tokens[..|st.tokens|] == st.tokens
  {
    if st.escape then
      if c == '"' then TokState(st.tokens, st.token + [c], st.quotes, false)
      else if IsBlank(c) then TokState(st.tokens + [st.token], [], false, false)
      else TokState(st.tokens, st.token + [c], false, false)
    else if st.quotes then
      if c == '"' then st.(escape := true)
      else st.(token := st.token + [c])
    else if c == '"' then
      if !CommentLine(st) then st.(quotes := true)
      else st.(token := st.token + [c])
    else if IsBlank(c) then
      if |st.token| > 0 then TokState(st.tokens + [st.token], [], false, false)
      else st
    else st.(token := st.token + [c])
  }

  function Run(st: TokState, s: string): (r: TokState)
    decreases |s|
  {
    if |s| == 0 then st else Run(Step(st, s[0]), s[1..])
  }

  /** Feeding two pieces one after the other is feeding their concatenation. */
  lemma {:induction false} RunAppend(st: TokState, a: string, b: string)
    ensures Run(st, a + b) == Run(Run(st, a), b)
    decreases |a|
  {
    if |a| > 0 {
      assert (a + b)[0] == a[0] && (a + b)[1..] == a[1..] + b;
      RunAppend(Step(st, a[0]), a[1..], b);
    } else {
      assert a + b == b;
    }
  }

  /** The tokens once the line is exhausted; an open quoted string is an
      error, a just-closed one always yields its (possibly empty) token. */
  function Finish(st: TokState): (r: Result<seq<string>, string>)
    ensures r.Err? <==> st.quotes && !st.escape
    ensures r.Ok? ==> |r.value| >= |st.tokens| && r.value[..|st.tokens|] == st.tokens
  {
    if st.quotes && !st.escape then Err("strings may not contain newlines")
    else if st.quotes || |st.token| > 0 then Ok(st.tokens + [st.token])
    else Ok(st.tokens)
  }

  function Tokenize(s: string): Result<seq<string>, string>
  {
    Finish(Run(Start, s))
  }

  // ---------------------------------------------------------------------------
  // Reference definition for unquoted text: maximal runs of non-blanks.

  predicate NoBlank(w: string) { forall i :: 0 <= i < |w| ==> !IsBlank(w[i]) }

  predicate NoQuote(s: string) { forall i :: 0 <= i < |s| ==> s[i] != '"' }

  /** The longest prefix without a blank. */
  function LeadingWord(s: string): (w: string)
    ensures |w| <= |s| && w == s[..|w|] && NoBlank(w)
    ensures |w| < |s| ==> IsBlank(s[|w|])
  {
    if |s| == 0 || IsBlank(s[0]) then [] else [s[0]] + LeadingWord(s[1..])
  }

  /** The maximal blank-free runs of a line, left to right. */
  function Fields(s: string): (ws: seq<string>)
    ensures forall k :: 0 <= k < |ws| ==> |ws[k]| > 0 && NoBlank(ws[k])
    decreases |s|
  {
    if |s| == 0 then []
    else if IsBlank(s[0]) then Fields(s[1..])
    else
      var w := LeadingWord(s);
      [w] + Fields(s[|w|..])
  }

  lemma {:induction false} LeadingWordOf(w: string, s: string)
    requires NoBlank(w)
    requires |s| == 0 || IsBlank(s[0])
    ensures LeadingWord(w + s) == w
    decreases |w|
  {
    if |w| > 0 {
      assert (w + s)[1..] == w[1..] + s;
      LeadingWordOf(w[1..], s);
    }
  }

  /** A blank-free word directly followed by a blank (or the end) is a field. */
  lemma FieldsOfWord(w: string, s: string)
    requires NoBlank(w) && |w| > 0
    requires |s| == 0 || IsBlank(s[0])
    ensures Fields(w + s) == [w] + Fields(s)
  {
    LeadingWordOf(w, s);
    assert (w + s)[|w|..] == s;
  }

  /** Outside quoted strings the tokenizer yields exactly the fields of the
      rest of the line; quotes may appear only once COMMENT has been read. */
  lemma {:induction false} RunFields(st: TokState, s: string)
    requires !st.quotes && !st.escape && NoBlank(st.token)
    requires NoQuote(s) || CommentLine(st)
    ensures Finish(Run(st, s)) == Ok(st.tokens + Fields(st.token + s))
    decreases |s|
  {
    if |s| == 0 {
      assert Run(st, s) == st;
      assert st.token + s == st.token;
      FinishFields(st);
    } else {
      var next := Step(st, s[0]);
      assert Run(st, s) == Run(next, s[1..]);
      StepFields(st, s);
      RunFields(next, s[1..]);
    }
  }

  /** At the end of the line the pending token is the last field. */
  lemma FinishFields(st: TokState)
    requires !st.quotes && !st.escape && NoBlank(st.token)
    ensures Finish(st) == Ok(st.tokens + Fields(st.token))
  {
    if |st.token| > 0 {
      var w := st.token;
      FieldsOfWord(w, "");
      assert w + "" == w;
      assert Fields("") == [];
      assert Fields(w) == [w];
    } else {
      assert Fields(st.token) == [];
      assert st.tokens + [] == st.tokens;
    }
  }

  /** One character outside quotes moves text from the pending line to the
      emitted tokens without changing their concatenated fields. */
  lemma StepFields(st: TokState, s: string)
    requires !st.quotes && !st.escape && NoBlank(st.token) && |s| > 0
    requires NoQuote(s) || CommentLine(st)
    ensures var next := Step(st, s[0]);
      && !next.quotes && !next.escape && NoBlank(next.token)
      && (NoQuote(s[1..]) || CommentLine(next))
      && next.tokens + Fields(next.token + s[1..]) == st.tokens + Fields(st.token + s)
  {
    if IsBlank(s[0]) {
      StepBlank(st, s);
    } else {
      StepWordChar(st, s);
    }
  }

  lemma StepBlank(st: TokState, s: string)
    requires !st.quotes && !st.escape && NoBlank(st.token) && |s| > 0 && IsBlank(s[0])
    ensures var next := Step(st, s[0]);
      && !next.quotes && !next.escape && next.token == []
      && next.tokens + Fields(next.token + s[1..]) == st.tokens + Fields(st.token + s)
  {
    var next := Step(st, s[0]);
    if |st.token| > 0 {
      assert next == TokState(st.tokens + [st.token], [], false, false);
      BlankAfterWord(st.tokens, st.token, s);
    } else {
      assert next == st;
      BlankAfterNothing(st.tokens, s);
    }
  }

  lemma BlankAfterWord(tokens: seq<string>, w: string, s: string)
    requires NoBlank(w) && |w| > 0 && |s| > 0 && IsBlank(s[0])
    ensures (tokens + [w]) + Fields([] + s[1..]) == tokens + Fields(w + s)
  {
    FieldsBlank(s);
    assert [] + s[1..] == s[1..];
    FieldsOfWord(w, s);
    AppendShift(tokens, [w] + Fields(s[1..]));
  }

  lemma BlankAfterNothing(tokens: seq<string>, s: string)
    requires |s| > 0 && IsBlank(s[0])
    ensures tokens + Fields([] + s[1..]) == tokens + Fields([] + s)
  {
    FieldsBlank(s);
    assert [] + s[1..] == s[1..];
    assert [] + s == s;
  }

  lemma StepWordChar(st: TokState, s: string)
    requires !st.quotes && !st.escape && NoBlank(st.token) && |s| > 0 && !IsBlank(s[0])
    requires NoQuote(s) || CommentLine(st)
    ensures var next := Step(st, s[0]);
      && next == st.(token := st.token + [s[0]])
      && NoBlank(next.token)
      && (NoQuote(s[1..]) || CommentLine(next))
      && next.token + s[1..] == st.token + s
  {
    assert NoQuote(s) ==> s[0] != '"';
    AppendShift(st.token, s);
  }

  lemma EmptyPrefix<T>(s: seq<T>)
    ensures [] + s == s
  {
  }

  lemma AppendShift<T>(t: seq<T>, s: seq<T>)
    requires |s| > 0
    ensures (t + [s[0]]) + s[1..] == t + s
  {
    assert s == [s[0]] + s[1..];
  }

  lemma FieldsBlank(s: string)
    requires |s| > 0 && IsBlank(s[0])
    ensures Fields(s) == Fields(s[1..])
  {
  }

  /** Outside quotes, a word without blanks or quotes just extends the token. */
  lemma {:induction false} RunWord(st: TokState, w: string)
    requires !st.quotes && !st.escape && NoBlank(w) && NoQuote(w)
    ensures Run(st, w) == st.(token := st.token + w)
    decreases |w|
  {
    if |w| == 0 {
      assert st.token + w == st.token;
    } else {
      var next := st.(token := st.token + [w[0]]);
      assert Step(st, w[0]) == next;
      RunWord(next, w[1..]);
      assert next.token + w[1..] == st.token + w;
    }
  }

  /** A line without quotes tokenizes to its blank-separated fields. */
  lemma TokenizeUnquoted(s: string)
    requires NoQuote(s)
    ensures Tokenize(s) == Ok(Fields(s))
  {
    RunFields(Start, s);
    EmptyPrefix(s);
    EmptyPrefix(Fields(s));
  }

  /** After a leading COMMENT token every quote is an ordinary character. */
  lemma TokenizeComment(rest: string)
    ensures Tokenize("COMMENT " + rest) == Ok(["COMMENT"] + Fields(rest))
  {
    var after := TokState(["COMMENT"], [], false, false);
    RunAppend(Start, "COMMENT ", rest);
    RunCommentWord("COMMENT ");
    RunFields(after, rest);
    assert after.token + rest == rest;
  }

  lemma RunCommentWord(line: string)
    requires line == "COMMENT "
    ensures Run(Start, line) == TokState(["COMMENT"], [], false, false)
  {
    var w := line[..7];
    assert w == "COMMENT";
    assert line == w + [' '];
    RunAppend(Start, w, [' ']);
    CommentPlain(w);
    RunWord(Start, w);
    var st := Start.(token := w);
    assert Start.token + w == w;
    assert Run(st, [' ']) == Run(Step(st, ' '), []);
  }

  lemma CommentPlain(w: string)
    requires w == "COMMENT"
    ensures NoBlank(w) && NoQuote(w)
  {
    assert w[0] == 'C' && w[1] == 'O' && w[2] == 'M' && w[3] == 'M';
    assert w[4] == 'E' && w[5] == 'N' && w[6] == 'T';
  }

  // ---------------------------------------------------------------------------
  // The inverse for quoted tokens.

  /** A quoted string's body: every quote doubled. */
  function Escape(w: string): (e: string)
    ensures |e| >= |w|
  {
    if |w| == 0 then []
    else if w[0] == '"' then "\"\"" + Escape(w[1..])
    else [w[0]] + Escape(w[1..])
  }

  function Quote(w: string): string { "\"" + Escape(w) + "\"" }

  /** The words quoted and separated by single spaces. */
  function QuoteAll(ws: seq<string>): string
  {
    if |ws| == 0 then []
    else if |ws| == 1 then Quote(ws[0])
    else Quote(ws[0]) + " " + QuoteAll(ws[1..])
  }

  /** Inside a quoted string an escaped body adds exactly its word. */
  lemma {:induction false} RunEscape(st: TokState, w: string)
    requires st.quotes && !st.escape
    ensures Run(st, Escape(w)) == st.(token := st.token + w)
    decreases |w|
  {
    if |w| == 0 {
      assert st.token + w == st.token;
    } else {
      var rest := Escape(w[1..]);
      var st' := st.(token := st.token + [w[0]]);
      if w[0] == '"' {
        RunAppend(st, "\"\"", rest);
        assert Run(st, "\"\"") == st';
      } else {
        assert Escape(w)[0] == w[0] && Escape(w)[1..] == rest;
      }
      RunEscape(st', w[1..]);
      assert st'.token + w[1..] == st.token + w;
    }
  }

  /** A quoted word, read outside quotes and not on a COMMENT line, ends in
      the just-closed state holding the word. */
  lemma RunQuote(st: TokState, w: string)
    requires !st.quotes && !st.escape && !CommentLine(st) && st.token == []
    ensures Run(st, Quote(w)) == TokState(st.tokens, w, true, true)
  {
    var inQuote := st.(quotes := true);
    RunAppend(st, "\"", Escape(w) + "\"");
    assert Run(st, "\"") == inQuote;
    RunAppend(inQuote, Escape(w), "\"");
    RunEscape(inQuote, w);
    assert inQuote.token + w == w;
    assert "\"" + Escape(w) + "\"" == "\"" + (Escape(w) + "\"");
  }

  /** Quoting each word and joining them with spaces is undone by the
      tokenizer, empty words included, unless the first word is COMMENT. */
  lemma {:induction false} RunQuoteAll(st: TokState, ws: seq<string>)
    requires |ws| > 0
    requires !st.quotes && !st.escape && st.token == []
    requires !CommentLine(st) && (|st.tokens| == 0 ==> ws[0] != "COMMENT")
    ensures Finish(Run(st, QuoteAll(ws))) == Ok(st.tokens + ws)
    decreases |ws|
  {
    RunQuote(st, ws[0]);
    var closed := TokState(st.tokens, ws[0], true, true);
    if |ws| == 1 {
      assert QuoteAll(ws) == Quote(ws[0]);
      assert ws == [ws[0]];
    } else {
      var next := TokState(st.tokens + [ws[0]], [], false, false);
      RunAppend(st, Quote(ws[0]), " " + QuoteAll(ws[1..]));
      assert Quote(ws[0]) + " " + QuoteAll(ws[1..]) == Quote(ws[0]) + (" " + QuoteAll(ws[1..]));
      RunAppend(closed, " ", QuoteAll(ws[1..]));
      assert Run(closed, " ") == next;
      assert next.tokens[0] == if |st.tokens| == 0 then ws[0] else st.tokens[0];
      RunQuoteAll(next, ws[1..]);
      assert next.tokens + ws[1..] == st.tokens + ws;
    }
  }

  lemma TokenizeQuoteAll(ws: seq<string>)
    requires |ws| == 0 || ws[0] != "COMMENT"
    ensures Tokenize(QuoteAll(ws)) == Ok(ws)
  {
    if |ws| > 0 {
      RunQuoteAll(Start, ws);
      assert Start.tokens + ws == ws;
    } else {
      assert QuoteAll(ws) == [];
    }
  }

  /** A quoted string that is never closed makes the line an error. */
  lemma TokenizeUnterminated(w: string)
    ensures Tokenize("\"" + Escape(w)).Err?
  {
    var inQuote := Start.(quotes := true);
    RunAppend(Start, "\"", Escape(w));
    assert Run(Start, "\"") == inQuote;
    RunEscape(inQuote, w);
  }

  // ---------------------------------------------------------------------------
  // Behaviour at the edges.

  /** An empty quoted string is a token. */
  lemma EmptyQuotedToken()
    ensures Tokenize("\"\"") == Ok([""])
  {
    TokenizeQuoteAll([""]);
    assert QuoteAll([""]) == "\"\"";
  }

  /** A closing quote followed by another character continues the same token
      outside the quotes. */
  lemma QuoteThenText()
    ensures Tokenize("\"a\"b") == Ok(["ab"])
  {
    assert Run(Start, "\"a\"b") == TokState([], "ab", false, false);
  }

  /** An opening quote in the middle of a word does not split it. */
  lemma TextThenQuote()
    ensures Tokenize("a\"b c\"") == Ok(["ab c"])
  {
    assert Run(Start, "a\"b c\"") == TokState([], "ab c", true, true);
  }
}
