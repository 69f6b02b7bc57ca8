// The tokenizer as it works in place: the cursor moves along a line in memory, and delimiters
// are overwritten with NULs so that every token is a C string of its own.
module TokenCursor {
  import opened CString
  import opened Tokens
  import opened Numerals

  // A token handed out: where it starts, and its text.
  datatype Handed = Handed(start: nat, text: string)

  // Between two states of the line, only delimiters in lo..hi have become NULs.
  predicate CutsOnly(before: seq<char>, after: seq<char>, lo: nat, hi: nat) {
    && |after| == |before|
    && forall i :: 0 <= i < |before| && after[i] != before[i] ==>
         lo <= i < hi && after[i] == NUL && (before[i] == ',' || before[i] == '"')
  }

  // The line with the delimiter at a position overwritten, if there is one.
  function CutAt(line: seq<char>, at: nat, cut: bool): seq<char> {
    if cut && at < |line| then line[at := NUL] else line
  }

  lemma TokEndIs(s: string)
    ensures var u := SkipWhite(s);
            TokEnd(s) == |s| - |u| + if u != [] && u[0] == '"' then 1 + |Sep(u[1..], '"').text| else |Sep(u, ',').text|
  {
  }

  lemma CutsWithin(before: seq<char>, after: seq<char>, lo: nat, hi: nat, outerLo: nat, outerHi: nat)
    requires CutsOnly(before, after, lo, hi) && outerLo <= lo && (hi <= lo || hi <= outerHi)
    ensures CutsOnly(before, after, outerLo, outerHi)
  {
  }

  lemma CutsNothing(line: seq<char>, at: nat)
    ensures CutsOnly(line, line, at, at)
  {
  }

  lemma CutsChain(before: seq<char>, between: seq<char>, after: seq<char>, lo: nat, mid: nat, hi: nat)
    requires CutsOnly(before, between, lo, mid) && CutsOnly(between, after, mid, hi) && lo <= mid <= hi
    ensures CutsOnly(before, after, lo, hi)
  {
  }

  function Words(tokens: seq<Handed>): (r: seq<string>)
    ensures |r| == |tokens| && forall k :: 0 <= k < |r| ==> r[k] == tokens[k].text
  {
    seq(|tokens|, k requires 0 <= k < |tokens| => tokens[k].text)
  }

  lemma HoldsBefore(mem: seq<char>, i: nat, start: nat, text: string)
    requires Holds(mem, start, text) && start + |text| < i < |mem|
    ensures Holds(mem[i := NUL], start, text)
  {
    assert mem[i := NUL][start..start + |text|] == text;
  }

  class Tokenizer {
    const buf: array<char>
    ghost const end: nat
    var cur: Option<nat>
    ghost var tokens: seq<Handed>

    // The line ends at end; the unread part holds no NUL; every token lies before the cursor and
    // still reads as it did when it was handed out.
    ghost predicate Valid()
      reads this, buf
    {
      && end < buf.Length && buf[end] == NUL
      && (cur.Some? ==> cur.value <= end && NulFree(buf[cur.value..end]))
      && forall k :: 0 <= k < |tokens| ==>
           && Holds(buf[..], tokens[k].start, tokens[k].text)
           && tokens[k].start + |tokens[k].text| < (if cur.Some? then cur.value else end + 1)
    }

    // The text from the cursor on.
    ghost function Rest(): Option<string>
      requires Valid()
      reads this, buf
    {
      if cur.None? then None else Some(buf[cur.value..end])
    }

    // A copy of a line, as its callers make it with strdup.
    constructor (line: string)
      requires NulFree(line)
      ensures Valid() && fresh(buf) && Rest() == Some(line) && tokens == []
    {
      buf := new char[|line| + 1](i requires 0 <= i => if i < |line| then line[i] else NUL);
      end := |line|;
      cur := Some(0);
      tokens := [];
      new;
      assert buf[0..end] == line;
    }

    // at_tok_start.
    method Start() returns (err: int)
      requires Valid()
      modifies this`cur
      ensures Valid()
      ensures match old(Rest())
              case None => err == -1 && Rest() == None
              case Some(s) => Rest() == Tokens.Start(s) && (err == 0 <==> Rest().Some?) && (err == 0 || err == -1)
    {
      if cur.None? {
        return -1;
      }
      ghost var s := Rest().value;
      var i := cur.value;
      while buf[i] != NUL && buf[i] != ':'
        invariant cur.value <= i <= end && ':' !in buf[cur.value..i]
        decreases end - i
      {
        i := i + 1;
      }
      ghost var n := i - cur.value;
      assert s[..n] == buf[cur.value..i];
      assert n < |s| ==> s[n] == ':' && s[n + 1..] == buf[i + 1..end];
      FindIs(s, ':', n);
      if buf[i] == NUL {
        cur := None;
        return -1;
      }
      cur := Some(i + 1);
      err := 0;
    }

    method SkipWhiteSpace()
      requires Valid()
      modifies this`cur
      ensures Valid() && (cur.None? <==> old(cur).None?)
      ensures cur.Some? ==> Rest().value == SkipWhite(old(Rest()).value)
      ensures cur.Some? ==> cur.value == old(cur).value + |old(Rest()).value| - |Rest().value|
    {
      hide SkipWhite, IsSpace, Holds;
      if cur.None? {
        return;
      }
      ghost var s := Rest().value;
      var i := cur.value;
      while buf[i] != NUL && IsSpace(buf[i])
        invariant cur.value <= i <= end
        invariant forall k :: cur.value <= k < i ==> IsSpace(buf[k])
        decreases end - i
      {
        i := i + 1;
      }
      ghost var n := i - cur.value;
      SkipIs(s, n);
      Advance(i);
    }

    // The cursor moves forward; what it skips stays as it is.
    method Advance(to: nat)
      requires Valid() && cur.Some? && cur.value <= to <= end
      modifies this`cur
      ensures Valid() && cur == Some(to) && Rest().value == old(Rest()).value[to - old(cur).value..]
    {
      ghost var s := Rest().value;
      assert s[to - cur.value..] == buf[to..end];
      cur := Some(to);
    }

    method SkipNextComma()
      requires Valid()
      modifies this`cur
      ensures Valid() && (cur.None? <==> old(cur).None?)
      ensures cur.Some? ==> old(cur).value <= cur.value && Rest().value == AfterComma(old(Rest()).value)
    {
      if cur.None? {
        return;
      }
      ghost var s := Rest().value;
      var i := cur.value;
      while buf[i] != NUL && buf[i] != ','
        invariant cur.value <= i <= end && ',' !in buf[cur.value..i]
        decreases end - i
      {
        i := i + 1;
      }
      ghost var n := i - cur.value;
      assert s[..n] == buf[cur.value..i];
      FindIs(s, ',', n);
      if buf[i] == ',' {
        Advance(i + 1);
      } else {
        Advance(i);
      }
    }

    // strsep: the token from the cursor to the delimiter, which becomes a NUL.
    method StrSep(d: char) returns (start: nat)
      requires Valid() && cur.Some? && (d == ',' || d == '"')
      modifies this, buf
      ensures Valid() && start == old(cur).value
      ensures var t := Sep(old(Rest()).value, d);
              && tokens == old(tokens) + [Handed(start, t.text)] && Rest() == t.rest
      ensures cur.Some? ==> cur.value > start
      ensures CutsOnly(old(buf[..]), buf[..], start, if cur.Some? then cur.value else start)
      ensures buf[..] == CutAt(old(buf[..]), start + |Sep(old(Rest()).value, d).text|, Rest().Some?)
    {
      ghost var s := Rest().value;
      start := cur.value;
      var i := start;
      while buf[i] != NUL && buf[i] != d
        invariant start <= i <= end && d !in buf[start..i]
        decreases end - i
      {
        i := i + 1;
      }
      ghost var n := i - start;
      assert s[..n] == buf[start..i];
      FindIs(s, d, n);
      Cut(start, i);
    }

    // The token start..i is cut off at i.
    method Cut(start: nat, i: nat)
      requires Valid() && cur == Some(start) && start <= i <= end
      modifies this, buf
      ensures Valid() && tokens == old(tokens) + [Handed(start, old(Rest()).value[..i - start])]
      ensures if i == end then Rest() == None && buf[..] == old(buf[..])
              else cur == Some(i + 1) && Rest() == Some(old(Rest()).value[i - start + 1..]) && buf[..] == old(buf[..])[i := NUL]
    {
      ghost var s, mem := Rest().value, buf[..];
      ghost var token := Handed(start, s[..i - start]);
      assert token.text == mem[start..i];
      if buf[i] == NUL {
        cur := None;
      } else {
        forall k | 0 <= k < |tokens|
          ensures Holds(mem[i := NUL], tokens[k].start, tokens[k].text)
        {
          HoldsBefore(mem, i, tokens[k].start, tokens[k].text);
        }
        assert mem[i := NUL][start..i] == token.text;
        buf[i] := NUL;
        assert buf[..] == mem[i := NUL];
        cur := Some(i + 1);
        assert buf[i + 1..end] == s[i - start + 1..];
      }
      tokens := tokens + [token];
    }

    // nextTok: where the next token starts.  Only a delimiter before the new cursor changes.
    method NextToken() returns (start: nat)
      requires Valid() && cur.Some?
      modifies this, buf
      ensures Valid()
      ensures var t := NextTok(old(Rest()).value);
              && tokens == old(tokens) + [Handed(start, t.text)] && Rest() == t.rest
      ensures CutsOnly(old(buf[..]), buf[..], old(cur).value, if cur.Some? then cur.value else old(cur).value)
      ensures cur.Some? ==> old(cur).value < cur.value
      ensures buf[..] == CutAt(old(buf[..]), old(cur).value + TokEnd(old(Rest()).value), Rest().Some?)
      ensures Fuel(Rest()) < Fuel(old(Rest()))
    {
      hide SkipWhite, Sep, AfterComma, Find, Valid, CutsOnly, CutAt, TokEnd;
      ghost var s := Rest().value;
      TokEndIs(s);
      ghost var first, before := cur.value, buf[..];
      SkipWhiteSpace();
      ghost var skipped := cur.value;
      var quoted := AtQuote();
      if quoted {
        start := QuotedToken();
      } else {
        start := StrSep(',');
      }
      CutsWithin(before, buf[..], skipped, if cur.Some? then cur.value else skipped,
                 first, if cur.Some? then cur.value else first);
    }

    method AtQuote() returns (quoted: bool)
      requires Valid() && cur.Some?
      ensures quoted <==> Rest().value != [] && Rest().value[0] == '"'
    {
      quoted := buf[cur.value] == '"';
    }

    // The branch of nextTok for a token in quotes.
    method QuotedToken() returns (start: nat)
      requires Valid() && cur.Some? && Rest().value != [] && Rest().value[0] == '"'
      modifies this, buf
      ensures Valid()
      ensures var t := Sep(old(Rest()).value[1..], '"');
              && tokens == old(tokens) + [Handed(start, t.text)]
              && Rest() == if t.rest.Some? then Some(AfterComma(t.rest.value)) else None
      ensures cur.Some? ==> old(cur).value < cur.value
      ensures CutsOnly(old(buf[..]), buf[..], old(cur).value, if cur.Some? then cur.value else old(cur).value)
      ensures buf[..] == CutAt(old(buf[..]), old(cur).value + 1 + |Sep(old(Rest()).value[1..], '"').text|, Rest().Some?)
    {
      hide Sep, AfterComma, Find, CutAt;
      Advance(cur.value + 1);
      start := StrSep('"');
      SkipNextComma();
    }

    // Where the unread part begins; the end of the line when nothing is left.
    ghost function Reached(): nat
      reads this
    {
      if cur.Some? then cur.value else end
    }

    // at_tok_nextstr.
    method NextStr() returns (err: int, start: nat)
      requires Valid()
      modifies this, buf
      ensures Valid() && CutsOnly(old(buf[..]), buf[..], old(Reached()), Reached()) && old(Reached()) <= Reached()
      ensures match old(Rest())
              case None => err == -1 && Rest() == None && tokens == old(tokens)
              case Some(s) => err == 0 && Rest() == NextTok(s).rest
                              && buf[..] == CutAt(old(buf[..]), old(Reached()) + TokEnd(s), Rest().Some?)
                              && tokens == old(tokens) + [Handed(start, NextTok(s).text)]
    {
      hide NextTok, CutAt, TokEnd;
      if cur.None? {
        return -1, 0;
      }
      start := NextToken();
      err := 0;
    }

    // Up to n calls of at_tok_nextstr: the tokens are those of Take, none handed out before has
    // changed, and the line has lost nothing but consumed delimiters.
    method NextStrs(n: nat)
      requires Valid()
      modifies this, buf
      ensures Valid() && CutsOnly(old(buf[..]), buf[..], old(Reached()), Reached()) && old(Reached()) <= Reached()
      ensures Rest() == Take(old(Rest()), n).1 && old(tokens) <= tokens
      ensures Words(tokens) == Words(old(tokens)) + Take(old(Rest()), n).0
      decreases n
    {
      hide NextTok, CutsOnly, Valid, CutAt, TokEnd;
      ghost var before, from := buf[..], Reached();
      if n == 0 || cur.None? {
        CutsNothing(before, from);
        return;
      }
      var err, start := NextStr();
      ghost var between, mid := buf[..], Reached();
      NextStrs(n - 1);
      CutsChain(before, between, buf[..], from, mid, Reached());
    }

    // The C string at start, which the tokenizer handed out as its k-th token.
    method TextAt(start: nat, ghost k: nat) returns (text: string)
      requires Valid() && k < |tokens| && tokens[k].start == start
      ensures text == tokens[k].text
    {
      var i := start;
      while buf[i] != NUL
        invariant start <= i <= start + |tokens[k].text|
        decreases start + |tokens[k].text| - i
      {
        i := i + 1;
      }
      text := buf[start..i];
    }

    // at_tok_nextint and at_tok_nexthexint; out is what *p_out holds afterwards, 0 if it is not written.
    method NextInt(base: Base, uns: bool) returns (err: int, out: int)
      requires Valid()
      modifies this, buf
      ensures Valid() && CutsOnly(old(buf[..]), buf[..], old(Reached()), Reached()) && old(Reached()) <= Reached()
      ensures match old(Rest())
              case None => err == -1 && Rest() == None && tokens == old(tokens)
              case Some(s) =>
                && Words(tokens) == Words(old(tokens)) + [NextTok(s).text]
                && buf[..] == CutAt(old(buf[..]), old(Reached()) + TokEnd(s), Rest().Some?)
                && Rest() == NextTok(s).rest
                && match IntOf(NextTok(s).text, base, uns)
                   case None => err == -1
                   case Some(n) => err == 0 && out == n
    {
      hide Valid, NextTok, CutsOnly, CutAt, TokEnd, Parse, Strtol, StrtoulAsLong, Signed;
      out := 0;
      if cur.None? {
        CutsNothing(buf[..], Reached());
        return -1, 0;
      }
      var start;
      err, start := NextStr();
      var text := TextAt(start, |tokens| - 1);
      out := Signed(if uns then StrtoulAsLong(text, base) else Strtol(text, base), TWO_32);
      err := if Parse(text, base).found then 0 else -1;
    }

    // The unread text as a C string.
    method Text() returns (text: string)
      requires Valid() && cur.Some?
      ensures text == Rest().value
    {
      var i := cur.value;
      while buf[i] != NUL
        invariant cur.value <= i <= end
        decreases end - i
      {
        i := i + 1;
      }
      text := buf[cur.value..i];
    }

    // at_tok_hasmore.
    method HasMoreTokens() returns (r: bool)
      requires Valid()
      ensures r == HasMore(Rest())
    {
      r := cur.Some? && buf[cur.value] != NUL;
    }
  }

  // What at_get_cme_error leaves of the final line: the delimiter behind the number is overwritten.
  function FinalAfter(success: bool, final: string): string {
    if success || !(CME_PREFIX <= final) then final
    else
      var s := final[|CME_PREFIX|..];
      if NextTok(s).rest.Some? then final[..|CME_PREFIX| + TokEnd(s)] else final
  }

  // at_get_cme_error, tokenizing the final line of the response in place.
  method GetCmeError(success: bool, final: Tokenizer?) returns (code: int)
    requires final != null ==> final.Valid() && final.cur.Some?
    modifies final, if final == null then {} else {final.buf}
    ensures code == CmeError(success, if final == null then None else old(final.Rest()))
    ensures final != null ==>
              && final.Valid()
              && var line := old(final.Rest()).value;
              var from := old(final.cur).value;
              && |FinalAfter(success, line)| <= |line|
              && final.buf[..] == CutAt(old(final.buf[..]), from + |FinalAfter(success, line)|,
                                        |FinalAfter(success, line)| < |line|)
  {
    hide NextTok, TokEnd, Parse;
    if success {
      return CME_SUCCESS;
    }
    if final == null {
      return CME_ERROR_NON_CME;
    }
    ghost var line, from := final.Rest().value, final.cur.value;
    var text := final.Text();
    var isCme := StrStartsWith(text, CME_PREFIX);
    if !isCme {
      return CME_ERROR_NON_CME;
    }
    StartOfCme(line);
    var err := final.Start();
    if err < 0 {
      return CME_ERROR_NON_CME;
    }
    var n;
    err, n := final.NextInt(Dec, false);
    if err < 0 {
      return CME_ERROR_NON_CME;
    }
    code := n;
  }

  // Asking again, of the line as it was left, gives the same number.
  lemma CmeErrorAgain(success: bool, final: string)
    ensures CmeError(success, Some(FinalAfter(success, final))) == CmeError(success, Some(final))
  {
    if !success && CME_PREFIX <= final {
      var s := final[|CME_PREFIX|..];
      var left := FinalAfter(success, final);
      StartOfCme(final);
      TokCut(s);
      hide NextTok, TokEnd, Parse;
      if left != final {
        assert left[..|CME_PREFIX|] == final[..|CME_PREFIX|];
        StartOfCme(left);
        assert left[|CME_PREFIX|..] == s[..TokEnd(s)];
      }
    }
  }
}
