// What the tokens of an AT response line are, as a function of the line's text: fields separated
// by commas, each with leading blanks skipped and optionally quoted.
module Tokens {
  import opened CString

  predicate IsSpace(c: char) {
    c == ' ' || '\t' <= c <= '\r'
  }

  // A token, and the text from the next one on; None when the cursor has become NULL.
  datatype Tok = Tok(text: string, rest: Option<string>)

  function SkipWhite(s: string): (r: string)
    ensures |r| <= |s|
    ensures r != [] ==> !IsSpace(r[0])
  {
    if s != [] && IsSpace(s[0]) then SkipWhite(s[1..]) else s
  }

  // The position of the first d in s, or |s|.
  function Find(s: string, d: char): (n: nat)
    ensures n <= |s| && d !in s[..n] && (n < |s| ==> s[n] == d)
  {
    if s == [] || s[0] == d then 0
    else
      var n := Find(s[1..], d);
      assert s[..n + 1] == [s[0]] + s[1..][..n];
      n + 1
  }

  // strsep: the text before the delimiter, and what follows it if there is one.
  function Sep(s: string, d: char): Tok {
    var n := Find(s, d);
    Tok(s[..n], if n < |s| then Some(s[n + 1..]) else None)
  }

  // skipNextComma.
  function AfterComma(s: string): string {
    var n := Find(s, ',');
    if n < |s| then s[n + 1..] else []
  }

  // nextTok.
  function NextTok(s: string): (t: Tok)
    ensures t.rest.Some? ==> |t.rest.value| < |s|
  {
    var u := SkipWhite(s);
    if u != [] && u[0] == '"' then
      var t := Sep(u[1..], '"');
      Tok(t.text, if t.rest.Some? then Some(AfterComma(t.rest.value)) else None)
    else
      Sep(u, ',')
  }

  // Where the first token of s ends: at the delimiter that is overwritten, or at the end of s.
  function TokEnd(s: string): (n: nat)
    ensures n <= |s|
  {
    var u := SkipWhite(s);
    var w := |s| - |u|;
    if u != [] && u[0] == '"' then w + 1 + Find(u[1..], '"') else w + Find(u, ',')
  }

  // at_tok_start: what follows the first colon.
  function Start(s: string): Option<string> {
    var n := Find(s, ':');
    if n < |s| then Some(s[n + 1..]) else None
  }

  // at_tok_hasmore.
  predicate HasMore(cursor: Option<string>) {
    cursor.Some? && cursor.value != []
  }

  // How much a cursor can still yield; every token uses some of it up.
  function Fuel(cursor: Option<string>): nat {
    match cursor
    case None => 0
    case Some(s) => |s| + 1
  }

  // The results of up to n calls of at_tok_nextstr, and the cursor after them.
  function Take(cursor: Option<string>, n: nat): (seq<string>, Option<string>)
    decreases n
  {
    if n == 0 || cursor.None? then ([], cursor)
    else
      var t := NextTok(cursor.value);
      var more := Take(t.rest, n - 1);
      ([t.text] + more.0, more.1)
  }

  // A line of length n holds at most n + 1 tokens.
  lemma {:induction false} TokensBounded(cursor: Option<string>, n: nat)
    ensures |Take(cursor, n).0| + Fuel(Take(cursor, n).1) <= Fuel(cursor)
    decreases n
  {
    hide NextTok;
    if n > 0 && cursor.Some? {
      TokensBounded(NextTok(cursor.value).rest, n - 1);
    }
  }

  // --- printing ---

  // A field as a modem prints it: blanks, then the text, bare or in quotes.
  datatype Field = Field(blanks: string, quoted: bool, text: string)

  predicate Printable(f: Field) {
    && (forall k :: 0 <= k < |f.blanks| ==> IsSpace(f.blanks[k]))
    && if f.quoted then '"' !in f.text
       else ',' !in f.text && (f.text != [] ==> !IsSpace(f.text[0]) && f.text[0] != '"')
  }

  function PrintField(f: Field): string {
    f.blanks + if f.quoted then ['"'] + f.text + ['"'] else f.text
  }

  function PrintFields(fs: seq<Field>): string {
    if fs == [] then []
    else if |fs| == 1 then PrintField(fs[0])
    else PrintField(fs[0]) + [','] + PrintFields(fs[1..])
  }

  function TextsOf(fs: seq<Field>): seq<string> {
    if fs == [] then [] else [fs[0].text] + TextsOf(fs[1..])
  }

  lemma {:induction false} FindIs(s: string, d: char, n: nat)
    requires n <= |s| && d !in s[..n] && (n < |s| ==> s[n] == d)
    ensures Find(s, d) == n
  {
    if n > 0 {
      assert s[0] in s[..n];
      assert s[1..][..n - 1] == s[1..n];
      assert forall c :: c in s[1..n] ==> c in s[..n];
      FindIs(s[1..], d, n - 1);
    }
  }

  lemma SepFound(a: string, d: char, b: string)
    requires d !in a
    ensures Sep(a + [d] + b, d) == Tok(a, Some(b))
  {
    var s := a + [d] + b;
    assert s[..|a|] == a && s[|a|] == d && s[|a| + 1..] == b;
    FindIs(s, d, |a|);
  }

  lemma SepMissing(a: string, d: char)
    requires d !in a
    ensures Sep(a, d) == Tok(a, None)
  {
    assert a[..|a|] == a;
    FindIs(a, d, |a|);
  }

  lemma {:induction false} SkipIs(s: string, n: nat)
    requires n <= |s| && (forall k :: 0 <= k < n ==> IsSpace(s[k])) && (n < |s| ==> !IsSpace(s[n]))
    ensures SkipWhite(s) == s[n..]
  {
    if n > 0 {
      SkipIs(s[1..], n - 1);
      assert s[1..][n - 1..] == s[n..];
    }
  }

  lemma {:induction false} SkipMeans(s: string)
    ensures var w := |s| - |SkipWhite(s)|;
            s[w..] == SkipWhite(s) && forall k :: 0 <= k < w ==> IsSpace(s[k])
  {
    if s != [] && IsSpace(s[0]) {
      SkipMeans(s[1..]);
      var w := |s| - |SkipWhite(s)|;
      assert s[w..] == s[1..][w - 1..];
      assert forall k :: 1 <= k < w ==> s[k] == s[1..][k - 1];
    }
  }

  // Overwriting the delimiter leaves a string with the same first token.
  lemma TokCut(s: string)
    ensures NextTok(s[..TokEnd(s)]).text == NextTok(s).text
  {
    var u := SkipWhite(s);
    var w := |s| - |u|;
    var e := TokEnd(s);
    SkipMeans(s);
    hide SkipWhite, Find, IsSpace;
    assert s[..e][w..] == u[..e - w];
    SkipIs(s[..e], w);
    if u != [] && u[0] == '"' {
      var n := Find(u[1..], '"');
      assert u[..e - w][1..] == u[1..][..n];
      SepMissing(u[1..][..n], '"');
    } else {
      SepMissing(u[..e - w], ',');
    }
  }

  lemma SkipBlanks(blanks: string, s: string)
    requires forall k :: 0 <= k < |blanks| ==> IsSpace(blanks[k])
    requires s != [] ==> !IsSpace(s[0])
    ensures SkipWhite(blanks + s) == s
  {
    hide SkipWhite;
    assert (blanks + s)[|blanks|..] == s;
    SkipIs(blanks + s, |blanks|);
  }

  lemma QuotedTok(blanks: string, text: string, after: string)
    requires (forall k :: 0 <= k < |blanks| ==> IsSpace(blanks[k])) && '"' !in text
    ensures NextTok(blanks + ['"'] + text + ['"'] + after) == Tok(text, Some(AfterComma(after)))
  {
    hide Find, SkipWhite, AfterComma, Sep;
    var tail := text + ['"'] + after;
    assert blanks + ['"'] + text + ['"'] + after == blanks + (['"'] + tail);
    SkipBlanks(blanks, ['"'] + tail);
    assert (['"'] + tail)[1..] == tail;
    SepFound(text, '"', after);
  }

  lemma BareTok(blanks: string, text: string)
    requires (forall k :: 0 <= k < |blanks| ==> IsSpace(blanks[k]))
    requires text != [] ==> !IsSpace(text[0]) && text[0] != '"'
    ensures NextTok(blanks + text) == Sep(text, ',')
  {
    hide Find, SkipWhite, Sep;
    SkipBlanks(blanks, text);
  }

  // A field followed by a comma is one token, and the cursor is past the comma.
  lemma TokOfField(f: Field, more: string)
    requires Printable(f)
    ensures NextTok(PrintField(f) + [','] + more) == Tok(f.text, Some(more))
  {
    hide Find, SkipWhite, NextTok, Sep;
    var line := PrintField(f) + [','] + more;
    if f.quoted {
      assert line == f.blanks + ['"'] + f.text + ['"'] + ([','] + more);
      QuotedTok(f.blanks, f.text, [','] + more);
      FindIs([','] + more, ',', 0);
      assert ([','] + more)[1..] == more;
    } else {
      var tail := f.text + [','] + more;
      assert line == f.blanks + tail;
      BareTok(f.blanks, tail);
      SepFound(f.text, ',', more);
    }
  }

  // The last field is one token, and nothing is left.
  lemma TokOfLast(f: Field)
    requires Printable(f)
    ensures NextTok(PrintField(f)).text == f.text && !HasMore(NextTok(PrintField(f)).rest)
  {
    hide Find, SkipWhite, NextTok, Sep;
    if f.quoted {
      assert PrintField(f) == f.blanks + ['"'] + f.text + ['"'] + [];
      QuotedTok(f.blanks, f.text, []);
      FindIs([], ',', 0);
    } else {
      BareTok(f.blanks, f.text);
      SepMissing(f.text, ',');
    }
  }

  lemma {:induction false} TakeFields(fs: seq<Field>)
    requires fs != [] && forall k :: 0 <= k < |fs| ==> Printable(fs[k])
    ensures Take(Some(PrintFields(fs)), |fs|).0 == TextsOf(fs)
    ensures !HasMore(Take(Some(PrintFields(fs)), |fs|).1)
  {
    hide NextTok, PrintField, Printable;
    if |fs| == 1 {
      TokOfLast(fs[0]);
      assert fs[1..] == [];
    } else {
      TokOfField(fs[0], PrintFields(fs[1..]));
      TakeFields(fs[1..]);
    }
  }

  lemma StartPrinted(prefix: string, fs: seq<Field>)
    requires ':' !in prefix
    ensures Start(prefix + [':'] + PrintFields(fs)) == Some(PrintFields(fs))
  {
    var line := prefix + [':'] + PrintFields(fs);
    assert line[..|prefix|] == prefix && line[|prefix| + 1..] == PrintFields(fs);
    FindIs(line, ':', |prefix|);
  }

  // Round trip: a printed line starts and yields exactly its fields, and then has no more.
  lemma LineRoundTrip(prefix: string, fs: seq<Field>)
    requires ':' !in prefix && fs != [] && forall k :: 0 <= k < |fs| ==> Printable(fs[k])
    ensures var cursor := Start(prefix + [':'] + PrintFields(fs));
            && cursor.Some?
            && Take(cursor, |fs|).0 == TextsOf(fs)
            && !HasMore(Take(cursor, |fs|).1)
  {
    hide Start, PrintFields;
    StartPrinted(prefix, fs);
    TakeFields(fs);
  }

  // --- what else a line may hold ---

  // The white space of the C locale.
  lemma Blanks(c: char)
    ensures IsSpace(c) <==> c in {' ', '\t', '\n', '\U{0B}', '\U{0C}', '\r'}
  {
  }

  // A line starts behind its first colon, and does not start without one.
  lemma StartMeans(line: string)
    ensures Start(line).None? <==> ':' !in line
    ensures forall name: string, rest: string :: ':' !in name && line == name + [':'] + rest ==> Start(line) == Some(rest)
  {
    var n := Find(line, ':');
    if n == |line| {
      assert line[..n] == line;
    } else {
      assert line[n] in line;
    }
    forall name: string, rest: string | ':' !in name && line == name + [':'] + rest
      ensures Start(line) == Some(rest)
    {
      assert line[..|name|] == name && line[|name| + 1..] == rest;
      FindIs(line, ':', |name|);
    }
  }

  // Between a closing quote and the next comma anything is skipped; without a comma nothing is left.
  lemma QuotedThen(blanks: string, text: string, junk: string, rest: string)
    requires (forall k :: 0 <= k < |blanks| ==> IsSpace(blanks[k])) && '"' !in text && ',' !in junk
    ensures NextTok(blanks + ['"'] + text + ['"'] + (junk + [','] + rest)) == Tok(text, Some(rest))
    ensures NextTok(blanks + ['"'] + text + ['"'] + junk) == Tok(text, Some([]))
  {
    hide NextTok;
    var tail := junk + [','] + rest;
    QuotedTok(blanks, text, tail);
    assert tail[..|junk|] == junk && tail[|junk| + 1..] == rest;
    FindIs(tail, ',', |junk|);
    QuotedTok(blanks, text, junk);
    assert junk[..|junk|] == junk;
    FindIs(junk, ',', |junk|);
  }

  // An open quote takes all that is left, commas included.
  lemma OpenQuote(blanks: string, text: string)
    requires (forall k :: 0 <= k < |blanks| ==> IsSpace(blanks[k])) && '"' !in text
    ensures NextTok(blanks + (['"'] + text)) == Tok(text, None)
  {
    hide Find, SkipWhite, Sep;
    SkipBlanks(blanks, ['"'] + text);
    assert (['"'] + text)[1..] == text;
    SepMissing(text, '"');
  }

  // After some fields of a printed line the cursor is at the rest of it, and there are more tokens
  // exactly when that is not empty.
  lemma {:induction false} MoreToTake(fs: seq<Field>, k: nat)
    requires k < |fs| && forall j :: 0 <= j < |fs| ==> Printable(fs[j])
    ensures var cursor := Take(Some(PrintFields(fs)), k).1;
            cursor == Some(PrintFields(fs[k..])) && (HasMore(cursor) <==> |PrintFields(fs[k..])| > 0)
  {
    hide NextTok, PrintField, Printable;
    if k > 0 {
      TokOfField(fs[0], PrintFields(fs[1..]));
      MoreToTake(fs[1..], k - 1);
      assert fs[1..][k - 1..] == fs[k..];
    } else {
      assert fs[0..] == fs;
    }
  }
}
