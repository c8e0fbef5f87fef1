/** `strip_ansi`: removing terminal escape sequences from a line of UTF-8 text. */
module AnsiStripper {
  import opened Bytes
  import opened Utf8

  const ESC: byte := 0x1b
  const BEL: byte := 0x07
  const TAB: byte := 0x09
  const BRACKET: byte := 0x5b    // [
  const CLOSING: byte := 0x5d    // ]
  const BACKSLASH: byte := 0x5c

  predicate IsFinal(b: byte) {
    0x40 <= b <= 0x7e
  }

  predicate IsPrintable(b: byte) {
    b == TAB || b >= 0x20
  }

  /** Bytes of a CSI sequence behind `ESC [`, the final byte included. */
  function CsiLen(s: seq<byte>): (n: nat)
    ensures n <= |s|
  {
    if s == [] then 0 else if IsFinal(s[0]) then 1 else 1 + CsiLen(s[1..])
  }

  predicate StringEnd(s: seq<byte>) {
    |s| > 1 && s[0] == ESC && s[1] == BACKSLASH
  }

  /** Bytes of an OSC sequence behind `ESC ]`. A BEL that follows `ESC \` is taken as well. */
  function OscLen(s: seq<byte>): (n: nat)
    ensures n <= |s|
  {
    if s == [] then 0
    else if s[0] == BEL then 1
    else if StringEnd(s) then (if |s| > 2 && s[2] == BEL then 3 else 2)
    else 1 + OscLen(s[1..])
  }

  /** Prepends kept text; `None` is a panic. */
  function Join(text: seq<byte>, rest: Option<seq<byte>>): Option<seq<byte>> {
    if rest.Some? then Some(text + rest.value) else None
  }

  /** What the loop does with the first bytes of a string: drop `n`, keep `n`, or panic because a
      slice does not start and end on code point boundaries. */
  datatype Turn = Drop(n: nat) | Keep(n: nat) | Panic

  function NextTurn(s: seq<byte>): (turn: Turn)
    requires s != []
    ensures turn.Panic? || 1 <= turn.n <= |s|
  {
    if s[0] == ESC && |s| > 1 then
      if s[1] == BRACKET then Drop(2 + CsiLen(s[2..]))
      else if s[1] == CLOSING then Drop(2 + OscLen(s[2..]))
      else Drop(2)
    else if IsPrintable(s[0]) then
      var end := Min(CharLen(s[0]), |s|);
      if Continuation(s[0]) || !IsBoundary(s, end) then Panic else Keep(end)
    else Drop(1)
  }

  /** The text that is kept, or `None` when the program panics. */
  function Strip(s: seq<byte>): Option<seq<byte>>
    decreases |s|
  {
    if s == [] then Some([])
    else
      match NextTurn(s)
      case Panic => None
      case Drop(n) => Strip(s[n..])
      case Keep(n) => Join(s[..n], Strip(s[n..]))
  }

  method StripAnsi(s: seq<byte>) returns (r: Option<seq<byte>>)
    requires Valid(s)
    ensures r == Strip(s)
  {
    var out: seq<byte> := [];
    var i := 0;
    TakeAll(s);
    JoinNothing(Strip(s));
    while i < |s|
      invariant 0 <= i <= |s|
      invariant Strip(s) == Join(out, Strip(s[i..]))
    {
      var b := s[i];
      TurnAt(s, i);
      if b == ESC && i + 1 < |s| {
        var next := s[i + 1];
        var from := i;
        if next == BRACKET {
          i := SkipCsi(s, i + 2);
        } else if next == CLOSING {
          i := SkipOsc(s, i + 2);
        } else {
          i := i + 2;
        }
        DropAt(s, from, i);
      } else if b == TAB || b >= 0x20 {
        var end := Min(i + CharLen(b), |s|);
        if !IsBoundary(s, i) || !IsBoundary(s, end) {
          return None;
        }
        KeepAt(s, i, end);
        JoinAssoc(out, s[i..end], Strip(s[end..]));
        assert Strip(s) == Join(out + s[i..end], Strip(s[end..]));
        out := out + s[i..end];
        i := end;
      } else {
        DropAt(s, i, i + 1);
        i := i + 1;
      }
    }
    assert s[i..] == [] && out + [] == out;
    r := Some(out);
  }

  /** A code point boundary at `j`, seen from `i`. */
  lemma BoundaryAt(s: seq<byte>, i: nat, j: nat)
    requires Valid(s) && i < |s| && i < j <= |s|
    ensures IsBoundary(s[i..], j - i) <==> IsBoundary(s, j)
    ensures !Continuation(s[i]) <==> IsBoundary(s, i)
  {
    HeadContinues(s);
    assert j < |s| ==> s[i..][j - i] == s[j];
  }

  /** The turn of the loop at an escape that is not the last byte. */
  lemma EscapeTurnAt(s: seq<byte>, i: nat)
    requires i + 1 < |s| && s[i] == ESC
    ensures NextTurn(s[i..]) ==
      if s[i + 1] == BRACKET then Drop(2 + CsiLen(s[i + 2..]))
      else if s[i + 1] == CLOSING then Drop(2 + OscLen(s[i + 2..]))
      else Drop(2)
  {
    assert s[i..][1] == s[i + 1] && s[i..][2..] == s[i + 2..];
  }

  /** The turn of the loop at any other byte. */
  lemma TextTurnAt(s: seq<byte>, i: nat)
    requires Valid(s) && i < |s| && !(s[i] == ESC && i + 1 < |s|)
    ensures NextTurn(s[i..]) ==
      if IsPrintable(s[i]) then
        var end := Min(i + CharLen(s[i]), |s|);
        if !IsBoundary(s, i) || !IsBoundary(s, end) then Panic else Keep(end - i)
      else Drop(1)
  {
    BoundaryAt(s, i, Min(i + CharLen(s[i]), |s|));
  }

  /** Both, in terms of positions in the whole line. */
  lemma TurnAt(s: seq<byte>, i: nat)
    requires Valid(s) && i < |s|
    ensures NextTurn(s[i..]) ==
      if s[i] == ESC && i + 1 < |s| then
        if s[i + 1] == BRACKET then Drop(2 + CsiLen(s[i + 2..]))
        else if s[i + 1] == CLOSING then Drop(2 + OscLen(s[i + 2..]))
        else Drop(2)
      else if IsPrintable(s[i]) then
        var end := Min(i + CharLen(s[i]), |s|);
        if !IsBoundary(s, i) || !IsBoundary(s, end) then Panic else Keep(end - i)
      else Drop(1)
    ensures NextTurn(s[i..]).Panic? ==> Strip(s[i..]).None?
  {
    if s[i] == ESC && i + 1 < |s| {
      EscapeTurnAt(s, i);
    } else {
      TextTurnAt(s, i);
    }
  }

  lemma DropDrop(s: seq<byte>, i: nat, j: nat)
    requires i <= j <= |s|
    ensures s[i..][j - i..] == s[j..]
  {
  }

  lemma DropAt(s: seq<byte>, i: nat, j: nat)
    requires i < j <= |s| && NextTurn(s[i..]) == Drop(j - i)
    ensures Strip(s[i..]) == Strip(s[j..])
  {
    DropDrop(s, i, j);
  }

  lemma KeepAt(s: seq<byte>, i: nat, j: nat)
    requires i < j <= |s| && NextTurn(s[i..]) == Keep(j - i)
    ensures Strip(s[i..]) == Join(s[i..j], Strip(s[j..]))
  {
    DropDrop(s, i, j);
    assert s[i..][..j - i] == s[i..j];
  }

  method SkipCsi(s: seq<byte>, from: nat) returns (i: nat)
    requires from <= |s|
    ensures i == from + CsiLen(s[from..])
  {
    i := from;
    while i < |s| && !IsFinal(s[i])
      invariant from <= i <= |s|
      invariant CsiLen(s[from..]) == i - from + CsiLen(s[i..])
    {
      assert s[i..][1..] == s[i + 1..];
      i := i + 1;
    }
    if i < |s| {
      i := i + 1;
    }
  }

  method SkipOsc(s: seq<byte>, from: nat) returns (i: nat)
    requires from <= |s|
    ensures i == from + OscLen(s[from..])
  {
    i := from;
    while i < |s| && s[i] != BEL
      invariant from <= i <= |s|
      invariant OscLen(s[from..]) == i - from + OscLen(s[i..])
    {
      if s[i] == ESC && i + 1 < |s| && s[i + 1] == BACKSLASH {
        i := i + 2;
        if i < |s| && s[i] == BEL {
          i := i + 1;
        }
        return;
      }
      assert s[i..][1..] == s[i + 1..];
      i := i + 1;
    }
    if i < |s| && s[i] == BEL {
      i := i + 1;
    }
  }

  lemma JoinAssoc(a: seq<byte>, b: seq<byte>, rest: Option<seq<byte>>)
    ensures Join(a, Join(b, rest)) == Join(a + b, rest)
  {
    if rest.Some? {
      ConcatAssoc(a, b, rest.value);
    }
  }

  // ---------------------------------------------------------------- what a line is made of

  datatype Item =
    | Text(c: seq<byte>)                          // one code point that is kept
    | Control(b: byte)                            // a dropped control byte
    | Csi(params: seq<byte>, final: byte)         // ESC [ params final
    | OscBel(body: seq<byte>)                     // ESC ] body BEL
    | OscSt(body: seq<byte>)                      // ESC ] body ESC \
    | TwoByte(b: byte)                            // ESC b

  predicate NoFinal(s: seq<byte>) {
    forall i :: 0 <= i < |s| ==> !(0x40 <= s[i] <= 0x7e)
  }

  predicate NoTerminator(s: seq<byte>) {
    && (forall i :: 0 <= i < |s| ==> s[i] != 0x07)
    && (forall i :: 0 <= i < |s| - 1 ==> !(s[i] == 0x1b && s[i + 1] == 0x5c))
  }

  predicate Proper(item: Item) {
    match item
    case Text(c) => IsChar(c) && (c[0] == 0x09 || c[0] >= 0x20)
    case Control(b) => b < 0x20 && b != 0x09 && b != 0x1b
    case Csi(params, final) => NoFinal(params) && 0x40 <= final <= 0x7e
    case OscBel(body) => NoTerminator(body)
    case OscSt(body) => NoTerminator(body)
    case TwoByte(b) => b < 0x80 && b != 0x5b && b != 0x5d
  }

  function Written(item: Item): seq<byte> {
    match item
    case Text(c) => c
    case Control(b) => [b]
    case Csi(params, final) => [0x1b, 0x5b] + params + [final]
    case OscBel(body) => [0x1b, 0x5d] + body + [0x07]
    case OscSt(body) => [0x1b, 0x5d] + body + [0x1b, 0x5c]
    case TwoByte(b) => [0x1b, b]
  }

  function Render(items: seq<Item>): seq<byte> {
    if items == [] then [] else Written(items[0]) + Render(items[1..])
  }

  function KeptText(items: seq<Item>): seq<byte> {
    if items == [] then []
    else (if items[0].Text? then items[0].c else []) + KeptText(items[1..])
  }

  ghost predicate AllProper(items: seq<Item>) {
    forall item :: item in items ==> Proper(item)
  }

  lemma {:induction false} CsiLenOf(params: seq<byte>, final: byte, rest: seq<byte>)
    requires NoFinal(params) && IsFinal(final)
    ensures CsiLen(params + [final] + rest) == |params| + 1
  {
    var s := params + [final] + rest;
    if params != [] {
      assert s[1..] == params[1..] + [final] + rest;
      CsiLenOf(params[1..], final, rest);
    }
  }

  lemma {:induction false} OscLenOf(body: seq<byte>, end: seq<byte>)
    requires NoTerminator(body)
    requires StringEnd(end) || (end != [] && end[0] == BEL)
    ensures OscLen(body + end) == |body| + OscLen(end)
  {
    var s := body + end;
    if body != [] {
      assert s[1..] == body[1..] + end;
      assert s[1] == if |body| > 1 then body[1] else end[0];
      OscLenOf(body[1..], end);
    } else {
      assert s == end;
    }
  }

  ghost predicate StartsClean(s: seq<byte>) {
    s == [] || !Continuation(s[0])
  }

  lemma StripCsi(params: seq<byte>, final: byte, rest: seq<byte>)
    requires NoFinal(params) && IsFinal(final)
    ensures Strip([ESC, BRACKET] + params + [final] + rest) == Strip(rest)
  {
    var s := [ESC, BRACKET] + params + [final] + rest;
    assert s[2..] == params + [final] + rest;
    CsiLenOf(params, final, rest);
    assert s[2 + (|params| + 1)..] == rest;
  }

  lemma StripOsc(body: seq<byte>, end: seq<byte>, rest: seq<byte>)
    requires NoTerminator(body)
    requires end == [BEL] || end == [ESC, BACKSLASH]
    ensures Strip([ESC, CLOSING] + body + end + rest) == Strip(rest)
  {
    var s := [ESC, CLOSING] + body + end + rest;
    assert s[2..] == body + (end + rest);
    OscLenOf(body, end + rest);
    assert s[2 + |body| + |end|..] == rest;
    if end == [ESC, BACKSLASH] && rest != [] && rest[0] == BEL {
      assert s[2 + |body| + 3..] == rest[1..];
      assert OscLen(end + rest) == 3;
    } else {
      assert OscLen(end + rest) == |end|;
    }
  }

  /** Removing one item from the front. */
  lemma StripItem(item: Item, rest: seq<byte>)
    requires Proper(item) && StartsClean(rest)
    ensures Strip(Written(item) + rest) == Join(if item.Text? then item.c else [], Strip(rest))
  {
    JoinNothing(Strip(rest));
    match item {
      case Text(c) =>
        assert (c + rest)[..|c|] == c && (c + rest)[|c|..] == rest;
      case Control(b) =>
        assert ([b] + rest)[1..] == rest;
      case Csi(params, final) => StripCsi(params, final, rest);
      case OscBel(body) => StripOsc(body, [BEL], rest);
      case OscSt(body) => StripOsc(body, [ESC, BACKSLASH], rest);
      case TwoByte(b) =>
        assert ([ESC, b] + rest)[2..] == rest;
    }
  }

  lemma RenderStartsClean(items: seq<Item>, tail: seq<byte>)
    requires AllProper(items) && StartsClean(tail)
    ensures StartsClean(Render(items) + tail)
  {
    if items != [] {
      assert Proper(items[0]);
    }
  }

  /** Stripping is a left inverse of decoration: escape sequences and controls disappear, the text
      stays, and what follows is stripped on its own. */
  lemma {:induction false} StripRendered(items: seq<Item>, tail: seq<byte>)
    requires AllProper(items) && StartsClean(tail)
    ensures Strip(Render(items) + tail) == Join(KeptText(items), Strip(tail))
  {
    if items == [] {
      assert Render(items) + tail == tail;
      JoinNothing(Strip(tail));
    } else {
      var rest := Render(items[1..]) + tail;
      ConcatAssoc(Written(items[0]), Render(items[1..]), tail);
      RenderStartsClean(items[1..], tail);
      assert Proper(items[0]);
      StripItem(items[0], rest);
      StripRendered(items[1..], tail);
      JoinAssoc(if items[0].Text? then items[0].c else [], KeptText(items[1..]), Strip(tail));
    }
  }

  lemma JoinNothing(rest: Option<seq<byte>>)
    ensures Join([], rest) == rest
  {
    if rest.Some? {
      assert [] + rest.value == rest.value;
    }
  }

  // ---------------------------------------------------------------- every line is made of that

  /** What can be left at the end of a line without being an item. */
  datatype Ending = Done | LoneEsc | OpenCsi | OpenOsc | SplitChar

  /** `SplitChar`: an escape before a code point that is not ASCII. Taking two bytes of it leaves the
      cursor inside the code point. */
  predicate EndsAs(tail: seq<byte>, e: Ending) {
    match e
    case Done => tail == []
    case LoneEsc => tail == [0x1b]
    case OpenCsi => |tail| >= 2 && tail[..2] == [0x1b, 0x5b] && NoFinal(tail[2..])
    case OpenOsc => |tail| >= 2 && tail[..2] == [0x1b, 0x5d] && NoTerminator(tail[2..])
    case SplitChar => |tail| >= 2 && tail[0] == 0x1b && tail[1] >= 0x80
  }

  lemma {:induction false} CsiSplit(s: seq<byte>) returns (params: seq<byte>, found: bool)
    ensures NoFinal(params)
    ensures found ==> |params| < |s| && params == s[..|params|] && IsFinal(s[|params|])
    ensures !found ==> params == s
  {
    if s == [] {
      params, found := [], false;
    } else if IsFinal(s[0]) {
      params, found := [], true;
    } else {
      params, found := CsiSplit(s[1..]);
      params := [s[0]] + params;
    }
  }

  lemma {:induction false} OscSplit(s: seq<byte>) returns (body: seq<byte>, found: bool)
    ensures NoTerminator(body)
    ensures found ==> |body| < |s| && body == s[..|body|] && (s[|body|] == BEL || StringEnd(s[|body|..]))
    ensures !found ==> body == s
  {
    if s == [] {
      body, found := [], false;
    } else if s[0] == BEL || StringEnd(s) {
      body, found := [], true;
      assert s[0..] == s;
    } else {
      var b;
      b, found := OscSplit(s[1..]);
      body := [s[0]] + b;
      if found {
        assert s[1..][|b|..] == s[|body|..];
      }
    }
  }

  /** `s` starts with this item, and a code point starts behind it. */
  ghost predicate StartsWith(s: seq<byte>, item: Item) {
    && Proper(item)
    && 0 < |Written(item)| <= |s|
    && s[..|Written(item)|] == Written(item)
    && IsBoundary(s, |Written(item)|)
  }

  lemma FirstCsi(s: seq<byte>) returns (item: Item)
    requires Valid(s) && |s| >= 2 && s[..2] == [ESC, BRACKET]
    ensures EndsAs(s, OpenCsi) || StartsWith(s, item)
  {
    var params, found := CsiSplit(s[2..]);
    if found {
      item := Csi(params, s[2 + |params|]);
      assert s[..3 + |params|] == s[..2] + s[2..][..|params|] + [s[2 + |params|]];
      AfterAscii(s, 3 + |params|);
    } else {
      item := Control(0);
    }
  }

  lemma FirstOsc(s: seq<byte>) returns (item: Item)
    requires Valid(s) && |s| >= 2 && s[..2] == [ESC, CLOSING]
    ensures EndsAs(s, OpenOsc) || StartsWith(s, item)
  {
    var body, found := OscSplit(s[2..]);
    item := Control(0);
    if found {
      var n := |body|;
      assert s[2..][n..] == s[2 + n..];
      if s[2 + n] == BEL {
        item := OscBel(body);
        assert s[..3 + n] == s[..2] + s[2..][..n] + [s[2 + n]];
        AfterAscii(s, 3 + n);
      } else {
        item := OscSt(body);
        assert s[..4 + n] == s[..2] + s[2..][..n] + [s[2 + n], s[3 + n]];
        AfterAscii(s, 4 + n);
      }
    }
  }

  /** The first item of a string that is not one of the endings. */
  lemma FirstItem(s: seq<byte>) returns (item: Item, ending: Ending)
    requires Valid(s) && s != []
    ensures EndsAs(s, ending) || StartsWith(s, item)
  {
    item, ending := Control(0), SplitChar;
    if s[0] != ESC {
      HeadContinues(s);
      NextStartsChar(s);
      if IsPrintable(s[0]) {
        item := Text(s[..CharLen(s[0])]);
      } else {
        item := Control(s[0]);
        assert s[..1] == [s[0]];
      }
    } else if |s| == 1 {
      ending := LoneEsc;
    } else {
      assert s[..2] == [s[0], s[1]];
      if s[1] == BRACKET {
        ending := OpenCsi;
        item := FirstCsi(s);
      } else if s[1] == CLOSING {
        ending := OpenOsc;
        item := FirstOsc(s);
      } else if s[1] < 0x80 {
        item := TwoByte(s[1]);
        AfterAscii(s, 2);
      }
    }
  }

  /** Every line is a series of items followed by one of the endings. */
  lemma {:induction false} Parse(s: seq<byte>) returns (items: seq<Item>, tail: seq<byte>, ending: Ending)
    requires Valid(s)
    ensures AllProper(items) && s == Render(items) + tail
    ensures Valid(tail) && EndsAs(tail, ending)
    decreases |s|
  {
    items, tail, ending := [], s, Done;
    if s != [] {
      var item, e := FirstItem(s);
      if EndsAs(s, e) {
        ending := e;
      } else {
        var n := |Written(item)|;
        ValidSplit(s, n);
        TakeDrop(s, n);
        var rest;
        rest, tail, ending := Parse(s[n..]);
        RenderCons(item, rest, tail);
        items := [item] + rest;
      }
    }
  }

  lemma RenderCons(item: Item, rest: seq<Item>, tail: seq<byte>)
    ensures Render([item] + rest) + tail == Written(item) + (Render(rest) + tail)
    ensures KeptText([item] + rest) == (if item.Text? then item.c else []) + KeptText(rest)
  {
    assert ([item] + rest)[1..] == rest;
  }

  lemma {:induction false} OpenCsiLen(s: seq<byte>)
    requires NoFinal(s)
    ensures CsiLen(s) == |s|
  {
    if s != [] {
      OpenCsiLen(s[1..]);
    }
  }

  lemma {:induction false} OpenOscLen(s: seq<byte>)
    requires NoTerminator(s)
    ensures OscLen(s) == |s|
  {
    if s != [] {
      assert !StringEnd(s);
      OpenOscLen(s[1..]);
    }
  }

  lemma StripOpenCsi(tail: seq<byte>)
    requires EndsAs(tail, OpenCsi)
    ensures StartsClean(tail) && Strip(tail) == Some([])
  {
    HeadOfTwo(tail, ESC, BRACKET);
    OpenCsiLen(tail[2..]);
    StripAll(tail);
  }

  lemma StripOpenOsc(tail: seq<byte>)
    requires EndsAs(tail, OpenOsc)
    ensures StartsClean(tail) && Strip(tail) == Some([])
  {
    HeadOfTwo(tail, ESC, CLOSING);
    OpenOscLen(tail[2..]);
    StripAll(tail);
  }

  lemma HeadOfTwo(s: seq<byte>, a: byte, b: byte)
    requires |s| >= 2 && s[..2] == [a, b]
    ensures s[0] == a && s[1] == b
  {
    assert s[..2][0] == s[0] && s[..2][1] == s[1];
  }

  lemma StripAll(s: seq<byte>)
    requires s != [] && NextTurn(s) == Drop(|s|)
    ensures Strip(s) == Some([])
  {
    assert s[|s|..] == [];
  }

  /** Of the endings only a split code point makes the program panic; the others vanish. */
  lemma StripEnding(tail: seq<byte>, ending: Ending)
    requires Valid(tail) && EndsAs(tail, ending)
    ensures StartsClean(tail)
    ensures Strip(tail) == if ending.SplitChar? then None else Some([])
  {
    match ending {
      case Done =>
      case LoneEsc => StripAll(tail);
      case OpenCsi => StripOpenCsi(tail);
      case OpenOsc => StripOpenOsc(tail);
      case SplitChar => StripSplitChar(tail);
    }
  }

  lemma StripSplitChar(tail: seq<byte>)
    requires Valid(tail) && EndsAs(tail, SplitChar)
    ensures Strip(tail).None?
  {
    AfterAscii(tail, 1);
    ValidSplit(tail, 1);
    HeadContinues(tail[1..]);
    assert tail[2..][0] == tail[1..][1];
  }

  /** The cursor leaves the code point boundaries, and the program panics, exactly on the lines that
      have, behind some series of complete items, an escape before a code point that is not ASCII. */
  lemma PanicIff(s: seq<byte>)
    requires Valid(s)
    ensures Strip(s).None? <==>
      exists items, tail :: AllProper(items) && s == Render(items) + tail && EndsAs(tail, SplitChar)
  {
    var items, tail, ending := Parse(s);
    StripEnding(tail, ending);
    StripRendered(items, tail);
    if Strip(s).None? {
      assert EndsAs(tail, SplitChar);
    }
    forall items', tail' | AllProper(items') && s == Render(items') + tail' && EndsAs(tail', SplitChar)
      ensures Strip(s).None?
    {
      StripRendered(items', tail');
      RenderBoundary(items', tail');
      StripEnding(tail', SplitChar);
    }
  }

  lemma RenderBoundary(items: seq<Item>, tail: seq<byte>)
    requires StartsClean(tail) && Valid(Render(items) + tail)
    ensures Valid(tail)
  {
    var s, n := Render(items) + tail, |Render(items)|;
    assert s[n..] == tail;
    ValidSplit(s, n);
  }

  /** A line in which no escape comes before a non-ASCII byte is always stripped safely. */
  lemma AsciiEscapesAreSafe(s: seq<byte>)
    requires Valid(s)
    requires forall i :: 0 <= i < |s| - 1 && s[i] == 0x1b ==> s[i + 1] < 0x80
    ensures Strip(s).Some?
  {
    var items, tail, ending := Parse(s);
    StripEnding(tail, ending);
    StripRendered(items, tail);
    var n := |Render(items)|;
    assert |tail| > 1 ==> s[n] == tail[0] && s[n + 1] == tail[1];
  }

  /** ESC before the two bytes of U+00E9. */
  lemma PanicExample()
    ensures Valid([0x1b, 0xC3, 0xA9]) && Strip([0x1b, 0xC3, 0xA9]).None?
  {
    var s: seq<byte> := [0x1b, 0xC3, 0xA9];
    assert s[1..] == [0xC3, 0xA9] && s[1..][2..] == [] && s[2..] == [0xA9];
  }

  // ---------------------------------------------------------------- stripping twice

  lemma {:induction false} TextOnly(items: seq<Item>) returns (texts: seq<Item>)
    requires AllProper(items)
    ensures AllProper(texts)
    ensures Render(texts) == KeptText(items) && KeptText(texts) == KeptText(items)
  {
    if items == [] {
      texts := [];
    } else {
      texts := TextOnly(items[1..]);
      if items[0].Text? {
        assert Proper(items[0]);
        RenderCons(items[0], texts, []);
        texts := [items[0]] + texts;
      }
    }
  }

  /** Stripping what is already stripped changes nothing. */
  lemma StripIdempotent(s: seq<byte>)
    requires Valid(s) && Strip(s).Some?
    ensures Strip(Strip(s).value) == Strip(s)
  {
    var items, tail, ending := Parse(s);
    StripEnding(tail, ending);
    StripRendered(items, tail);
    var texts := TextOnly(items);
    StripRendered(texts, []);
    assert Render(texts) + [] == Render(texts);
    assert KeptText(items) + [] == KeptText(items);
  }
}
