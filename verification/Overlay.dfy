/** The word-less wrapping loop of show_overlay in src/tui/tui.c. */
module Overlay {

  type Text = seq<char>

  /** Length of the first paragraph of `s`. */
  function LineLength(s: Text): (n: nat)
    ensures n <= |s| && '\n' !in s[..n] && (n < |s| ==> s[n] == '\n')
  {
    if s == [] || s[0] == '\n' then 0 else 1 + LineLength(s[1..])
  }

  /** The paragraphs of a text; a final newline opens no further one. */
  function Paragraphs(s: Text): seq<Text> {
    if s == [] then []
    else
      var n := LineLength(s);
      [s[..n]] + if n < |s| then Paragraphs(s[n + 1..]) else []
  }

  function Blanks(n: nat): (ls: seq<Text>)
    ensures |ls| == n && forall i :: 0 <= i < n ==> ls[i] == []
  {
    seq(n, _ => [])
  }

  /** A paragraph cut every `wrap` characters; an empty one is one empty line. A negative width, as
      terminals under 4 columns give, becomes a huge size_t and cuts nothing. With width 0 the text
      never advances: empty lines fill all the `room` there is. */
  function Chunks(p: Text, wrap: int, room: nat): seq<Text>
    decreases |p|
  {
    if wrap == 0 && p != [] then Blanks(room)
    else if wrap < 0 || |p| <= wrap then [p]
    else [p[..wrap]] + Chunks(p[wrap..], wrap, room)
  }

  function WrapAll(ps: seq<Text>, wrap: int, room: nat): seq<Text> {
    if ps == [] then [] else Chunks(ps[0], wrap, room) + WrapAll(ps[1..], wrap, room)
  }

  /** Every line of a text, were there room for all of them. */
  function FullWrap(s: Text, wrap: int, room: nat): seq<Text> {
    WrapAll(Paragraphs(s), wrap, room)
  }

  function Concat(ls: seq<Text>): Text {
    if ls == [] then [] else ls[0] + Concat(ls[1..])
  }

  function Join(ps: seq<Text>): Text {
    if ps == [] then [] else if |ps| == 1 then ps[0] else ps[0] + ['\n'] + Join(ps[1..])
  }

  lemma ChunksOf(p: Text, wrap: int, room: nat)
    requires wrap != 0 || p == []
    ensures Chunks(p, wrap, room)
            == if wrap < 0 || |p| <= wrap then [p] else [p[..wrap]] + Chunks(p[wrap..], wrap, room)
  {
  }

  lemma ConcatCons(l: Text, ls: seq<Text>)
    ensures Concat([l] + ls) == l + Concat(ls)
  {
    assert ([l] + ls)[1..] == ls;
  }

  /** The lines of one paragraph, put end to end, are that paragraph. */
  lemma {:induction false} ChunksRejoin(p: Text, wrap: nat, room: nat)
    requires wrap > 0
    ensures Chunks(p, wrap, room) != [] && Concat(Chunks(p, wrap, room)) == p
    decreases |p|
  {
    hide Chunks, Concat;
    ChunksOf(p, wrap, room);
    if |p| > wrap {
      ChunksRejoin(p[wrap..], wrap, room);
      ConcatCons(p[..wrap], Chunks(p[wrap..], wrap, room));
      assert p == p[..wrap] + p[wrap..];
    } else {
      ConcatCons(p, []);
      assert [p] + [] == [p] && Concat([]) == [] by { NoLines(); }
      assert p + [] == p;
    }
  }

  lemma NoLines()
    ensures Concat([]) == []
  {
  }

  /** None of them is too long, and all but the last are full. */
  lemma {:induction false} ChunksFit(p: Text, wrap: nat, room: nat)
    requires wrap > 0
    ensures forall c :: c in Chunks(p, wrap, room) ==> |c| <= wrap
    ensures forall i :: 0 <= i < |Chunks(p, wrap, room)| - 1 ==> |Chunks(p, wrap, room)[i]| == wrap
    decreases |p|
  {
    hide Chunks;
    ChunksOf(p, wrap, room);
    if |p| > wrap {
      ChunksFit(p[wrap..], wrap, room);
    }
  }

  lemma JoinCons(p: Text, ps: seq<Text>)
    ensures Join([p] + ps) == if ps == [] then p else p + ['\n'] + Join(ps)
  {
    assert ([p] + ps)[1..] == ps;
  }

  lemma ParagraphsOf(s: Text)
    requires s != []
    ensures var n := LineLength(s);
            Paragraphs(s) == [s[..n]] + if n < |s| then Paragraphs(s[n + 1..]) else []
  {
  }

  lemma ParagraphsEmpty(s: Text)
    ensures Paragraphs(s) == [] <==> s == []
    ensures Join([]) == []
  {
  }

  predicate EndsInNewline(s: Text) {
    s != [] && s[|s| - 1] == '\n'
  }

  /** Paragraphs joined by newlines give the text back, up to one trailing newline. */
  lemma {:induction false} ParagraphsRejoin(s: Text)
    ensures Join(Paragraphs(s)) == if EndsInNewline(s) then s[..|s| - 1] else s
    decreases |s|
  {
    hide Paragraphs, Join, LineLength;
    ParagraphsEmpty(s);
    if s != [] {
      var n := LineLength(s);
      ParagraphsOf(s);
      if n < |s| {
        var rest := s[n + 1..];
        ParagraphsRejoin(rest);
        ParagraphsEmpty(rest);
        JoinCons(s[..n], Paragraphs(rest));
        Reassemble(s, n);
      } else {
        JoinCons(s[..n], []);
        assert s[..n] == s && s[|s| - 1] in s;
      }
    }
  }

  /** And none of them holds a newline. */
  lemma {:induction false} ParagraphsPlain(s: Text)
    ensures forall p :: p in Paragraphs(s) ==> '\n' !in p
    decreases |s|
  {
    hide LineLength;
    if s != [] {
      var n := LineLength(s);
      if n < |s| { ParagraphsPlain(s[n + 1..]); }
    }
  }

  lemma Reassemble(s: Text, n: nat)
    requires n < |s| && s[n] == '\n'
    ensures var rest := s[n + 1..];
            && s[..n] + ['\n'] + rest == s
            && (rest == [] ==> EndsInNewline(s) && s[..|s| - 1] == s[..n])
            && (rest != [] ==>
                  && (EndsInNewline(s) <==> EndsInNewline(rest))
                  && s[..n] + ['\n'] + rest[..|rest| - 1] == s[..|s| - 1])
  {
  }

  lemma {:induction false} LinesFit(ps: seq<Text>, wrap: nat, room: nat)
    requires wrap > 0
    ensures forall l :: l in WrapAll(ps, wrap, room) ==> |l| <= wrap
  {
    if ps != [] {
      LinesFit(ps[1..], wrap, room);
      ChunksFit(ps[0], wrap, room);
    }
  }

  function Room(oh: int): nat {
    if oh > 4 then oh - 4 else 0
  }

  /** One paragraph's lines, as far as there is room. */
  method PrintParagraph(par: Text, before: seq<Text>, y0: int, oh: int, wrap: int, ghost all: seq<Text>,
                        ghost after: seq<Text>)
      returns (printed: seq<Text>, y: int)
    requires 2 <= y0 < oh - 2 && |before| == y0 - 2 && |before| <= |all| && before == all[..|before|]
    requires all[|before|..] == Chunks(par, wrap, Room(oh)) + after
    ensures 2 <= y <= oh - 2 && |printed| == y - 2 && |printed| <= |all| && printed == all[..|printed|]
    ensures y >= oh - 2 || all[|printed|..] == after
  {
    hide Chunks;
    ghost var room := Room(oh);
    printed, y := before, y0;
    var at, len := 0, |par|;
    if wrap == 0 { StuckParagraph(par, all, |printed|, room, after); }
    assert par[0..] == par;
    while wrap >= 0 && len > wrap && y < oh - 2
      invariant 0 <= at <= |par| && at + len == |par|
      invariant |printed| == y - 2 && 2 <= y <= oh - 2
      invariant |printed| <= |all| && printed == all[..|printed|]
      invariant wrap != 0 || par == [] ==> all[|printed|..] == Chunks(par[at..], wrap, room) + after
      invariant wrap == 0 ==> at == 0
      decreases oh - 2 - y
    {
      if wrap == 0 {
        BlankNext(all, |printed|);
      } else {
        LongChunk(par, at, wrap, room, after);
        NextLine(all, |printed|, par[at..at + wrap], Chunks(par[at + wrap..], wrap, room) + after);
      }
      printed := printed + [par[at..at + wrap]];
      y, at, len := y + 1, at + wrap, len - wrap;
    }
    if y < oh - 2 {
      assert par[at..at + len] == par[at..];
      LastChunk(par[at..], wrap, room);
      NextLine(all, |printed|, par[at..], after);
      printed := printed + [par[at..at + len]];
      y := y + 1;
    }
  }

  /** What is on the screen is the full wrapping cut after the lines there is room for. */
  method ShowBody(body: Text, oh: int, wrap: int) returns (printed: seq<Text>)
    ensures var text := if body != [] then body else "(no lesson written for this scenario)";
            var all := FullWrap(text, wrap, Room(oh));
            && Room(oh) == (if oh > 4 then oh - 4 else 0)
            && printed == all[..if Room(oh) < |all| then Room(oh) else |all|]
  {
    hide FullWrap;
    printed := ShowText(if body != [] then body else "(no lesson written for this scenario)", oh, wrap);
  }

  /** Its printing loop: `y` starts at 2 and must stay below oh - 2. */
  method ShowText(text: Text, oh: int, wrap: int) returns (printed: seq<Text>)
    ensures var all := FullWrap(text, wrap, Room(oh));
            printed == all[..if Room(oh) < |all| then Room(oh) else |all|]
  {
    hide LineLength, FullWrap, Chunks;
    ghost var room := Room(oh);
    ghost var all := FullWrap(text, wrap, room);
    printed := [];
    var y, p := 2, 0;
    assert text[0..] == text && all[0..] == all;
    while p < |text| && y < oh - 2
      invariant 0 <= p <= |text|
      invariant |printed| == y - 2 && (y <= oh - 2 || y == 2)
      invariant |printed| <= |all| && printed == all[..|printed|]
      invariant all[|printed|..] == FullWrap(text[p..], wrap, room) || y >= oh - 2
      decreases |text| - p
    {
      var rest := text[p..];
      var n := LineLength(rest);
      FirstParagraph(rest, wrap, room);
      ghost var after := if n < |rest| then FullWrap(rest[n + 1..], wrap, room) else [];
      printed, y := PrintParagraph(rest[0..n], printed, y, oh, wrap, all, after);
      if n < |rest| {
        assert rest[n + 1..] == text[p + n + 1..];
        p := p + n + 1;
      } else {
        break;
      }
    }
    NothingMore(wrap, room);
  }

  lemma NothingMore(wrap: int, room: nat)
    ensures FullWrap([], wrap, room) == []
  {
  }

  /** With width 0 a paragraph that is not empty fills the rest of the room with empty lines. */
  lemma StuckParagraph(p: Text, all: seq<Text>, k: nat, room: nat, after: seq<Text>)
    requires k <= |all| && all[k..] == Chunks(p, 0, room) + after
    ensures p != [] ==> |all| >= k + room && forall i :: k <= i < k + room ==> all[i] == []
  {
    if p != [] {
      assert Chunks(p, 0, room) == Blanks(room);
      forall i | k <= i < k + room ensures all[i] == [] {
        assert all[i] == all[k..][i - k] == Blanks(room)[i - k];
      }
    }
  }

  lemma BlankNext(all: seq<Text>, k: nat)
    requires k < |all|
    ensures all[..k] + [all[k]] == all[..k + 1]
  {
  }

  lemma LongChunk(p: Text, at: nat, wrap: nat, room: nat, after: seq<Text>)
    requires wrap > 0 && at <= |p| && |p| - at > wrap
    ensures Chunks(p[at..], wrap, room) + after == [p[at..at + wrap]] + (Chunks(p[at + wrap..], wrap, room) + after)
  {
    assert p[at..][..wrap] == p[at..at + wrap] && p[at..][wrap..] == p[at + wrap..];
  }

  lemma LastChunk(p: Text, wrap: int, room: nat)
    requires wrap < 0 || |p| <= wrap
    ensures Chunks(p, wrap, room) == [p]
  {
  }

  lemma NextLine(all: seq<Text>, k: nat, line: Text, tail: seq<Text>)
    requires k <= |all| && all[k..] == [line] + tail
    ensures k < |all| && all[..k] + [line] == all[..k + 1] && all[k + 1..] == tail
  {
    assert all[k] == all[k..][0];
    assert all[k + 1..] == all[k..][1..];
  }

  lemma WrapCons(p: Text, ps: seq<Text>, wrap: int, room: nat)
    ensures WrapAll([p] + ps, wrap, room) == Chunks(p, wrap, room) + WrapAll(ps, wrap, room)
  {
    hide Chunks;
    assert ([p] + ps)[1..] == ps;
  }

  lemma FirstParagraph(s: Text, wrap: int, room: nat)
    requires s != []
    ensures var n := LineLength(s);
            && s[0..n] == s[..n]
            && FullWrap(s, wrap, room)
               == Chunks(s[0..n], wrap, room) + if n < |s| then FullWrap(s[n + 1..], wrap, room) else []
  {
    hide Chunks, LineLength, WrapAll;
    var n := LineLength(s);
    WrapCons(s[..n], if n < |s| then Paragraphs(s[n + 1..]) else [], wrap, room);
    WrapNone(wrap, room);
  }

  lemma WrapNone(wrap: int, room: nat)
    ensures WrapAll([], wrap, room) == []
  {
  }
}
