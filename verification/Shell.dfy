/** The shell's parser, cutting the line buffer in place, and its printer. */
module Shell {
  import opened Options
  import opened ShellRoundTrip
  import opened ShellText

  /** A token is a pointer into the line buffer. */
  class RedirToken {
    var tokens: seq<nat>

    constructor ()
      ensures tokens == []
    {
      tokens := [];
    }
  }

  class ShellCommand {
    var rtokens: seq<RedirToken>

    constructor ()
      ensures rtokens == []
    {
      rtokens := [];
    }
  }

  // ----- strings in a buffer

  /** The terminated string at `p` is `s`. */
  ghost predicate IsStr(b: seq<char>, p: nat, s: string) {
    p + |s| < |b| && b[p..p + |s|] == s && b[p + |s|] == '\0' && forall i :: 0 <= i < |s| ==> s[i] != '\0'
  }

  /** A terminated string from `start` to `end`, still whole. */
  ghost predicate Whole(b: seq<char>, start: nat, end: nat) {
    start <= end < |b| && b[end] == '\0' && forall k :: start <= k < end ==> b[k] != '\0'
  }

  /** The buffers agree from `lo` to `hi`. */
  ghost predicate AgreeOn(b: seq<char>, b': seq<char>, lo: int, hi: int) {
    |b| == |b'| && forall k :: 0 <= k < |b| && lo <= k <= hi ==> b'[k] == b[k]
  }

  /** The buffers agree outside `lo` to `hi`, `hi` excluded. */
  ghost predicate AgreeOutside(b: seq<char>, b': seq<char>, lo: int, hi: int) {
    |b| == |b'| && forall k :: 0 <= k < |b| && (k < lo || hi <= k) ==> b'[k] == b[k]
  }

  lemma IsStrKept(b: seq<char>, b': seq<char>, p: nat, s: string, lo: int, hi: int)
    requires IsStr(b, p, s) && lo <= p && p + |s| <= hi && AgreeOn(b, b', lo, hi)
    ensures IsStr(b', p, s)
  {
    assert b'[p..p + |s|] == b[p..p + |s|];
  }

  // ----- what the lists show

  ghost predicate ShowsPart(b: seq<char>, r: RedirToken, p: Part, lo: int, hi: int)
    reads r
  {
    |r.tokens| == |p| && forall k :: 0 <= k < |p| ==>
      lo <= r.tokens[k] && r.tokens[k] + |p[k]| <= hi && IsStr(b, r.tokens[k], p[k])
  }

  ghost predicate ShowsParts(b: seq<char>, rs: seq<RedirToken>, c: Command, lo: int, hi: int)
    reads set r | r in rs
  {
    |rs| == |c| && forall k :: 0 <= k < |c| ==> ShowsPart(b, rs[k], c[k], lo, hi)
  }

  ghost predicate ShowsCommand(b: seq<char>, sc: ShellCommand, c: Command, lo: int, hi: int)
    reads sc, set r | r in sc.rtokens
  {
    ShowsParts(b, sc.rtokens, c, lo, hi)
  }

  ghost predicate ShowsLine(b: seq<char>, cs: seq<ShellCommand>, cl: CommandLine, lo: int, hi: int)
    reads set c | c in cs, set c, r | c in cs && r in c.rtokens :: r
  {
    |cs| == |cl| && forall k :: 0 <= k < |cl| ==> ShowsCommand(b, cs[k], cl[k], lo, hi)
  }

  lemma ShowsPartKept(b: seq<char>, b': seq<char>, r: RedirToken, p: Part, lo: int, hi: int, hi': int)
    requires ShowsPart(b, r, p, lo, hi) && hi <= hi' && AgreeOn(b, b', lo, hi)
    ensures ShowsPart(b', r, p, lo, hi')
  {
    forall k | 0 <= k < |p| ensures IsStr(b', r.tokens[k], p[k]) {
      IsStrKept(b, b', r.tokens[k], p[k], lo, hi);
    }
  }

  lemma ShowsPartsKept(b: seq<char>, b': seq<char>, rs: seq<RedirToken>, c: Command, lo: int, hi: int, hi': int)
    requires ShowsParts(b, rs, c, lo, hi) && hi <= hi' && AgreeOn(b, b', lo, hi)
    ensures ShowsParts(b', rs, c, lo, hi')
  {
    forall k | 0 <= k < |c| ensures ShowsPart(b', rs[k], c[k], lo, hi') {
      ShowsPartKept(b, b', rs[k], c[k], lo, hi, hi');
    }
  }

  lemma ShowsLineKept(b: seq<char>, b': seq<char>, cs: seq<ShellCommand>, cl: CommandLine, lo: int, hi: int, hi': int)
    requires ShowsLine(b, cs, cl, lo, hi) && hi <= hi' && AgreeOn(b, b', lo, hi)
    ensures ShowsLine(b', cs, cl, lo, hi')
  {
    forall k | 0 <= k < |cl| ensures ShowsCommand(b', cs[k], cl[k], lo, hi') {
      ShowsPartsKept(b, b', cs[k].rtokens, cl[k], lo, hi, hi');
    }
  }

  /** How far the finished pieces reach when scanning goes on at `save`. */
  function Reach(save: nat, end: nat): int {
    if save == end then end else save - 1
  }

  // ----- the splitter

  lemma {:induction false} SplitRun(s: string, delims: set<char>, k: nat)
    requires 0 < k <= |s| && (forall i :: 0 <= i < k ==> s[i] !in delims) && (k < |s| ==> s[k] in delims)
    ensures Split(s, delims) == [s[..k]] + Split(s[if k == |s| then k else k + 1..], delims)
  {
    assert s == s[..k] + s[k..];
    SplitFront(s[..k], s[k..], delims);
    if k < |s| {
      assert s[k..] == [s[k]] + s[k + 1..];
      SplitSkips([s[k]], s[k + 1..], delims);
    }
  }

  lemma Slices<T>(b: seq<T>, lo: nat, hi: nat, x: nat, y: nat)
    requires lo <= x <= y <= hi <= |b|
    ensures b[lo..hi][x - lo..y - lo] == b[x..y]
    ensures b[lo..hi][x - lo..] == b[x..hi]
  {
    var s, u, v := b[lo..hi], b[lo..hi][x - lo..y - lo], b[x..y];
    assert |u| == |v| && forall i :: 0 <= i < |u| ==> u[i] == s[i + x - lo] == b[i + x] == v[i];
  }

  /** Leading delimiters up to `t`, a run up to `q`, and the rest. */
  lemma {:induction false} SplitSteps(b: seq<char>, start: nat, end: nat, delims: set<char>, t: nat, q: nat)
    requires start <= t < q <= end <= |b|
    requires forall i :: start <= i < t ==> b[i] in delims
    requires forall i :: t <= i < q ==> b[i] !in delims
    requires q < end ==> b[q] in delims
    ensures Split(b[start..end], delims) == [b[t..q]] + Split(b[if q == end then q else q + 1..end], delims)
  {
    assert b[start..end] == b[start..t] + b[t..end];
    SplitSkips(b[start..t], b[t..end], delims);
    var k := q - t;
    SplitRun(b[t..end], delims, k);
    Slices(b, t, end, t, q);
    Slices(b, t, end, if q == end then q else q + 1, end);
  }

  /** The first position from `start` on that holds no delimiter. */
  method SkipDelims(buf: array<char>, start: nat, delims: set<char>, ghost end: nat) returns (t: nat)
    requires Whole(buf[..], start, end) && '\0' !in delims
    ensures start <= t <= end && buf[t] !in delims
    ensures forall k :: start <= k < t ==> buf[k] in delims
  {
    t := start;
    while buf[t] in delims
      invariant start <= t <= end
      invariant forall k :: start <= k < t ==> buf[k] in delims
      decreases end - t
    {
      t := t + 1;
    }
  }

  /** The first position from `start` on that holds a delimiter or the terminator. */
  method RunEnd(buf: array<char>, start: nat, delims: set<char>, ghost end: nat) returns (e: nat)
    requires Whole(buf[..], start, end)
    ensures start <= e <= end && (e < end ==> buf[e] in delims)
    ensures forall k :: start <= k < e ==> buf[k] !in delims
  {
    e := start;
    while buf[e] != '\0' && buf[e] !in delims
      invariant start <= e <= end
      invariant forall k :: start <= k < e ==> buf[k] !in delims
      decreases end - e
    {
      e := e + 1;
    }
  }

  /** One step of the re-entrant splitter from `start` (the string, or the saved position): skips
      delimiters, ends the next run with a terminator and says where to go on; None at the end. */
  method StrtokR(buf: array<char>, start: nat, delims: set<char>, ghost end: nat)
    returns (tok: Option<nat>, save: nat, ghost q: nat)
    requires Whole(buf[..], start, end) && '\0' !in delims
    modifies buf
    ensures start <= save <= end
    ensures tok.None? ==> save == end && buf[..] == old(buf[..]) && Split(old(buf[..])[start..end], delims) == []
    ensures tok.Some? ==>
              && start <= tok.value < q <= end && save == (if q == end then end else q + 1)
              && buf[..] == old(buf[..])[q := '\0']
              && Split(old(buf[..])[start..end], delims) ==
                 [old(buf[..])[tok.value..q]] + Split(old(buf[..])[save..end], delims)
  {
    ghost var b := buf[..];
    var t := SkipDelims(buf, start, delims, end);
    q := t;
    if buf[t] == '\0' {
      tok, save := None, t;
      assert b[start..end] == b[start..end] + "";
      SplitSkips(b[start..end], "", delims);
      return;
    }
    var e := RunEnd(buf, t, delims, end);
    q := e;
    SplitSteps(b, start, end, delims, t, e);
    tok, save := Some(t), e;
    if buf[e] != '\0' {
      save := e + 1;
      buf[e] := '\0';
    }
  }

  // ----- parsing

  method AddToken(token: nat, r: RedirToken)
    modifies r
    ensures r.tokens == old(r.tokens) + [token]
  {
    r.tokens := r.tokens + [token];
  }

  method AddRedirToken(r: RedirToken, c: ShellCommand)
    modifies c
    ensures c.rtokens == old(c.rtokens) + [r]
  {
    c.rtokens := c.rtokens + [r];
  }

  /** Cutting at `q` changes neither the piece before it nor what follows. */
  lemma CutSlices(b: seq<char>, t: nat, q: nat, next: nat, end: nat)
    requires t <= q <= next <= end <= |b| && q < |b| && (q < next || next == end)
    ensures b[q := '\0'][t..q] == b[t..q] && b[q := '\0'][next..end] == b[next..end]
  {
  }

  /** A buffer that differs between `lo` and `hi` only has the same text after that. */
  lemma TailKept(b: seq<char>, b': seq<char>, lo: nat, hi: nat, next: nat, end: nat)
    requires AgreeOutside(b, b', lo, hi) && hi <= next <= end <= |b|
    ensures b'[next..end] == b[next..end]
  {
  }

  /** The piece cut off is a terminated string. */
  lemma CutIsStr(b: seq<char>, t: nat, q: nat, end: nat)
    requires t < q <= end && Whole(b, t, end)
    ensures IsStr(b[q := '\0'], t, b[t..q])
  {
    assert b[q := '\0'][t..q] == b[t..q];
  }

  lemma PartCons(p: Part, s: string, ss: seq<string>)
    ensures p + ([s] + ss) == (p + [s]) + ss
  {
  }

  /** Cuts off the next token, if there is one, and appends it. */
  method NextToken(buf: array<char>, r: RedirToken, save: nat, ghost start: nat, ghost end: nat, ghost p: Part)
    returns (more: bool, next: nat, ghost p': Part)
    requires start <= save && Whole(buf[..], save, end)
    requires ShowsPart(buf[..], r, p, start, Reach(save, end))
    modifies buf, r
    ensures save <= next <= end && Whole(buf[..], next, end)
    ensures AgreeOutside(old(buf[..]), buf[..], save, end)
    ensures ShowsPart(buf[..], r, p', start, Reach(next, end))
    ensures p + Split(old(buf[..])[save..end], BLANKS) == p' + Split(buf[..][next..end], BLANKS)
    ensures if more then save < next else next == end
  {
    ghost var b := buf[..];
    var tok; ghost var q;
    tok, next, q := StrtokR(buf, save, BLANKS, end);
    ShowsPartKept(b, buf[..], r, p, start, Reach(save, end), Reach(next, end));
    more, p' := tok.Some?, p;
    if tok.Some? {
      AddToken(tok.value, r);
      ghost var s := b[tok.value..q];
      CutIsStr(b, tok.value, q, end);
      CutSlices(b, tok.value, q, next, end);
      p' := p + [s];
      PartCons(p, s, Split(b[next..end], BLANKS));
    } else {
      assert buf[..][end..end] == [];
    }
  }

  /** Cuts one part at blanks. */
  method ParseRedirToken(buf: array<char>, start: nat, ghost end: nat) returns (r: RedirToken)
    requires Whole(buf[..], start, end)
    modifies buf
    ensures fresh(r) && AgreeOutside(old(buf[..]), buf[..], start, end)
    ensures ShowsPart(buf[..], r, Split(old(buf[..])[start..end], BLANKS), start, end)
  {
    r := new RedirToken();
    ghost var b0, p: Part := buf[..], [];
    var save, more := start, true;
    while more
      invariant start <= save <= end && Whole(buf[..], save, end) && (!more ==> save == end)
      invariant AgreeOutside(b0, buf[..], start, end)
      invariant ShowsPart(buf[..], r, p, start, Reach(save, end))
      invariant Split(b0[start..end], BLANKS) == p + Split(buf[..][save..end], BLANKS)
      decreases more, end - save
    {
      more, save, p := NextToken(buf, r, save, start, end, p);
    }
    assert buf[..][end..end] == [] && p + [] == p;
  }

  // ----- commands

  /** Cuts off the next part at '>', if there is one, and parses it. */
  method NextPart(buf: array<char>, c: ShellCommand, save: nat, ghost start: nat, ghost end: nat, ghost cmd: Command)
    returns (more: bool, next: nat, ghost cmd': Command)
    requires start <= save && Whole(buf[..], save, end)
    requires ShowsCommand(buf[..], c, cmd, start, Reach(save, end))
    modifies buf, c
    ensures save <= next <= end && Whole(buf[..], next, end)
    ensures AgreeOutside(old(buf[..]), buf[..], save, end)
    ensures ShowsCommand(buf[..], c, cmd', start, Reach(next, end))
    ensures cmd + Parts(Split(old(buf[..])[save..end], {'>'})) == cmd' + Parts(Split(buf[..][next..end], {'>'}))
    ensures if more then save < next else next == end
    ensures forall r :: r in c.rtokens ==> r in old(c.rtokens) || fresh(r)
  {
    ghost var b := buf[..];
    var tok; ghost var q;
    tok, next, q := StrtokR(buf, save, {'>'}, end);
    more, cmd' := tok.Some?, cmd;
    ShowsPartsKept(b, buf[..], c.rtokens, cmd, start, Reach(save, end), Reach(save, end));
    if tok.Some? {
      ghost var s := b[tok.value..q];
      CutSlices(b, tok.value, q, next, end);
      AddPart(buf, c, tok.value, q, start, Reach(save, end), Reach(next, end), cmd);
      cmd' := cmd + [Split(s, BLANKS)];
      TailKept(b[q := '\0'], buf[..], tok.value, q, next, end);
      PartsCons(cmd, s, Split(b[next..end], {'>'}));
    } else {
      ShowsPartsKept(b, buf[..], c.rtokens, cmd, start, Reach(save, end), Reach(next, end));
      assert buf[..][end..end] == [];
    }
  }

  /** Parses the piece from `t` to `q` and appends it; earlier parts lie before it. */
  method AddPart(buf: array<char>, c: ShellCommand, t: nat, ghost q: nat, ghost lo: int, ghost hi: int, ghost hi': int,
                 ghost cmd: Command)
    requires Whole(buf[..], t, q) && lo <= t && hi < t && q <= hi'
    requires ShowsCommand(buf[..], c, cmd, lo, hi)
    modifies buf, c
    ensures AgreeOutside(old(buf[..]), buf[..], t, q)
    ensures ShowsCommand(buf[..], c, cmd + [Split(old(buf[..])[t..q], BLANKS)], lo, hi')
    ensures forall r :: r in c.rtokens ==> r in old(c.rtokens) || fresh(r)
  {
    ghost var b := buf[..];
    var r := ParseRedirToken(buf, t, q);
    ShowsPartsKept(b, buf[..], c.rtokens, cmd, lo, hi, hi');
    ShowsPartKept(buf[..], buf[..], r, Split(b[t..q], BLANKS), t, q, hi');
    AddRedirToken(r, c);
  }

  lemma {:induction false} PartsCons(c: Command, s: string, ss: seq<string>)
    ensures c + Parts([s] + ss) == (c + [Split(s, BLANKS)]) + Parts(ss)
  {
    assert ([s] + ss)[1..] == ss;
  }

  /** Cuts one command at '>'. */
  method ParseShellCommand(buf: array<char>, start: nat, ghost end: nat) returns (c: ShellCommand)
    requires Whole(buf[..], start, end)
    modifies buf
    ensures fresh(c) && forall r :: r in c.rtokens ==> fresh(r)
    ensures AgreeOutside(old(buf[..]), buf[..], start, end)
    ensures ShowsCommand(buf[..], c, ParseCommand(old(buf[..])[start..end]), start, end)
  {
    c := new ShellCommand();
    ghost var b0, cmd: Command := buf[..], [];
    var save, more := start, true;
    while more
      invariant start <= save <= end && Whole(buf[..], save, end) && (!more ==> save == end)
      invariant AgreeOutside(b0, buf[..], start, end)
      invariant forall r :: r in c.rtokens ==> fresh(r)
      invariant ShowsCommand(buf[..], c, cmd, start, Reach(save, end))
      invariant ParseCommand(b0[start..end]) == cmd + Parts(Split(buf[..][save..end], {'>'}))
      decreases more, end - save
    {
      more, save, cmd := NextPart(buf, c, save, start, end, cmd);
    }
    assert buf[..][end..end] == [] && cmd + [] == cmd;
  }

  // ----- command lines

  lemma {:induction false} CommandsCons(cl: CommandLine, s: string, ss: seq<string>)
    ensures cl + Commands([s] + ss) == (cl + [ParseCommand(s)]) + Commands(ss)
  {
    assert ([s] + ss)[1..] == ss;
  }

  /** Cuts off the next command at ';', if there is one, and parses it. */
  method NextCommand(buf: array<char>, cs: seq<ShellCommand>, save: nat, ghost start: nat, ghost end: nat,
                     ghost cl: CommandLine)
    returns (cs': seq<ShellCommand>, more: bool, next: nat, ghost cl': CommandLine)
    requires start <= save && Whole(buf[..], save, end)
    requires ShowsLine(buf[..], cs, cl, start, Reach(save, end))
    modifies buf
    ensures save <= next <= end && Whole(buf[..], next, end)
    ensures AgreeOutside(old(buf[..]), buf[..], save, end)
    ensures ShowsLine(buf[..], cs', cl', start, Reach(next, end))
    ensures cl + Commands(Split(old(buf[..])[save..end], {';'})) == cl' + Commands(Split(buf[..][next..end], {';'}))
    ensures if more then save < next else next == end
  {
    ghost var b := buf[..];
    var tok; ghost var q;
    tok, next, q := StrtokR(buf, save, {';'}, end);
    more, cs', cl' := tok.Some?, cs, cl;
    ShowsLineKept(b, buf[..], cs, cl, start, Reach(save, end), Reach(save, end));
    if tok.Some? {
      ghost var s := b[tok.value..q];
      CutSlices(b, tok.value, q, next, end);
      cs' := AddCommand(buf, cs, tok.value, q, start, Reach(save, end), Reach(next, end), cl);
      cl' := cl + [ParseCommand(s)];
      TailKept(b[q := '\0'], buf[..], tok.value, q, next, end);
      CommandsCons(cl, s, Split(b[next..end], {';'}));
    } else {
      ShowsLineKept(b, buf[..], cs, cl, start, Reach(save, end), Reach(next, end));
      assert buf[..][end..end] == [];
    }
  }

  /** Parses the piece from `t` to `q` and appends it; earlier commands lie before it. */
  method AddCommand(buf: array<char>, cs: seq<ShellCommand>, t: nat, ghost q: nat, ghost lo: int, ghost hi: int,
                    ghost hi': int, ghost cl: CommandLine)
    returns (cs': seq<ShellCommand>)
    requires Whole(buf[..], t, q) && lo <= t && hi < t && q <= hi'
    requires ShowsLine(buf[..], cs, cl, lo, hi)
    modifies buf
    ensures AgreeOutside(old(buf[..]), buf[..], t, q)
    ensures ShowsLine(buf[..], cs', cl + [ParseCommand(old(buf[..])[t..q])], lo, hi')
  {
    ghost var b := buf[..];
    var c := ParseShellCommand(buf, t, q);
    ShowsLineKept(b, buf[..], cs, cl, lo, hi, hi');
    ShowsPartsKept(buf[..], buf[..], c.rtokens, ParseCommand(b[t..q]), t, q, hi');
    WidenCommand(buf[..], c, ParseCommand(b[t..q]), t, lo, hi');
    cs' := cs + [c];
  }

  lemma WidenCommand(b: seq<char>, c: ShellCommand, cmd: Command, lo: int, lo': int, hi: int)
    requires ShowsCommand(b, c, cmd, lo, hi) && lo' <= lo
    ensures ShowsCommand(b, c, cmd, lo', hi)
  {
    forall k | 0 <= k < |cmd| ensures ShowsPart(b, c.rtokens[k], cmd[k], lo', hi) {
      assert ShowsPart(b, c.rtokens[k], cmd[k], lo, hi);
    }
  }

  /** Cuts the line in the buffer in place: the lists then show, as pointers into the buffer, the
      three-level structure of the line as it was. */
  method ParseCommandLine(buf: array<char>, ghost end: nat) returns (cs: seq<ShellCommand>)
    requires Whole(buf[..], 0, end)
    modifies buf
    ensures AgreeOutside(old(buf[..]), buf[..], 0, end)
    ensures ShowsLine(buf[..], cs, ParseLine(old(buf[..])[..end]), 0, end)
  {
    cs := [];
    ghost var b0, cl: CommandLine := buf[..], [];
    assert b0[..end] == b0[0..end];
    var save, more := 0, true;
    while more
      invariant save <= end && Whole(buf[..], save, end) && (!more ==> save == end)
      invariant AgreeOutside(b0, buf[..], 0, end)
      invariant ShowsLine(buf[..], cs, cl, 0, Reach(save, end))
      invariant ParseLine(b0[..end]) == cl + Commands(Split(buf[..][save..end], {';'}))
      decreases more, end - save
    {
      cs, more, save, cl := NextCommand(buf, cs, save, 0, end, cl);
    }
    assert buf[..][end..end] == [] && cl + [] == cl;
  }

  // ----- printing

  lemma {:induction false} JoinNext(ss: seq<string>, k: nat, sep: string)
    requires k < |ss|
    ensures Join(ss[k..], sep) == ss[k] + (if k + 1 < |ss| then sep else "") + Join(ss[k + 1..], sep)
  {
    assert ss[k..][1..] == ss[k + 1..];
    if k + 1 == |ss| {
      assert ss[k..] == [ss[k]];
      assert ss[k] + "" + "" == ss[k];
    }
  }

  lemma {:induction false} JoinSwallows(out: string, ss: seq<string>, k: nat, sep: string, all: string)
    requires k < |ss| && out + Join(ss[k..], sep) == all
    ensures (out + ss[k] + if k + 1 < |ss| then sep else "") + Join(ss[k + 1..], sep) == all
  {
    JoinNext(ss, k, sep);
  }

  /** The terminated string at `p`. */
  method ReadString(buf: array<char>, p: nat, ghost s: string) returns (r: string)
    requires IsStr(buf[..], p, s)
    ensures r == s
  {
    var e := p;
    assert forall k :: p <= k < p + |s| ==> buf[k] == s[k - p];
    while buf[e] != '\0'
      invariant p <= e <= p + |s|
      decreases p + |s| - e
    {
      e := e + 1;
    }
    r := buf[p..e];
  }

  method PrintRedirToken(buf: array<char>, r: RedirToken, ghost p: Part, ghost lo: int, ghost hi: int)
    returns (out: string)
    requires ShowsPart(buf[..], r, p, lo, hi)
    ensures out == PrintPart(p)
  {
    out := "";
    for k := 0 to |r.tokens|
      invariant out + Join(p[k..], " ") == PrintPart(p)
    {
      JoinSwallows(out, p, k, " ", PrintPart(p));
      var str := ReadString(buf, r.tokens[k], p[k]);
      out := out + str;
      if k + 1 < |r.tokens| {
        out := out + " ";
      }
    }
  }

  lemma {:induction false} PrintedPartsAt(c: Command)
    ensures |PrintedParts(c)| == |c| && forall k :: 0 <= k < |c| ==> PrintedParts(c)[k] == PrintPart(c[k])
  {
    if c != [] { PrintedPartsAt(c[1..]); }
  }

  lemma {:induction false} PrintedCommandsAt(cl: CommandLine)
    ensures |PrintedCommands(cl)| == |cl|
    ensures forall k :: 0 <= k < |cl| ==> PrintedCommands(cl)[k] == PrintCommand(cl[k])
  {
    if cl != [] { PrintedCommandsAt(cl[1..]); }
  }

  method PrintShellCommand(buf: array<char>, c: ShellCommand, ghost cmd: Command, ghost lo: int, ghost hi: int)
    returns (out: string)
    requires ShowsCommand(buf[..], c, cmd, lo, hi)
    ensures out == PrintCommand(cmd)
  {
    out := "";
    ghost var ss := PrintedParts(cmd);
    PrintedPartsAt(cmd);
    for k := 0 to |c.rtokens|
      invariant out + Join(ss[k..], " > ") == PrintCommand(cmd)
    {
      JoinSwallows(out, ss, k, " > ", PrintCommand(cmd));
      var part := PrintRedirToken(buf, c.rtokens[k], cmd[k], lo, hi);
      out := out + part;
      if k + 1 < |c.rtokens| {
        out := out + " > ";
      }
    }
  }

  method PrintCommandLine(buf: array<char>, cs: seq<ShellCommand>, ghost cl: CommandLine, ghost lo: int, ghost hi: int)
    returns (out: string)
    requires ShowsLine(buf[..], cs, cl, lo, hi)
    ensures out == PrintLine(cl)
  {
    out := "";
    ghost var ss := PrintedCommands(cl);
    PrintedCommandsAt(cl);
    for k := 0 to |cs|
      invariant out + Join(ss[k..], " ; ") == Join(ss, " ; ")
    {
      JoinSwallows(out, ss, k, " ; ", Join(ss, " ; "));
      var command := PrintShellCommand(buf, cs[k], cl[k], lo, hi);
      out := out + command;
      if k + 1 < |cs| {
        out := out + " ; ";
      }
    }
    out := out + "\n";
  }

  // ----- printing and parsing again

  ghost predicate TokensFree(cl: CommandLine, d: char) {
    forall i, j, k :: 0 <= i < |cl| && 0 <= j < |cl[i]| && 0 <= k < |cl[i][j]| ==> Free(cl[i][j][k], {d})
  }

  lemma ShownTokensFree(b: seq<char>, cs: seq<ShellCommand>, cl: CommandLine, lo: int, hi: int)
    requires ShowsLine(b, cs, cl, lo, hi)
    ensures TokensFree(cl, '\0')
  {
    forall i, j, k | 0 <= i < |cl| && 0 <= j < |cl[i]| && 0 <= k < |cl[i][j]|
      ensures Free(cl[i][j][k], {'\0'})
    {
      assert ShowsCommand(b, cs[i], cl[i], lo, hi);
      assert ShowsPart(b, cs[i].rtokens[j], cl[i][j], lo, hi);
      assert IsStr(b, cs[i].rtokens[j].tokens[k], cl[i][j][k]);
    }
  }

  /** What no token and no separator contains the printed line does not contain. */
  lemma PrintedFree(cl: CommandLine, d: char)
    requires TokensFree(cl, d) && d !in SPECIAL
    ensures Free(PrintLine(cl), {d})
  {
    PrintedCommandsAt(cl);
    forall i | 0 <= i < |cl| ensures Free(PrintedCommands(cl)[i], {d}) {
      PrintedPartsAt(cl[i]);
      forall j | 0 <= j < |cl[i]| ensures Free(PrintedParts(cl[i])[j], {d}) { JoinFree(cl[i][j], " ", d); }
      JoinFree(PrintedParts(cl[i]), " > ", d);
    }
    JoinFree(PrintedCommands(cl), " ; ", d);
    FreeConcat(Join(PrintedCommands(cl), " ; "), "\n", {d});
  }

  /** Prints the lists into a new buffer and parses that: the new lists show the line the old ones show,
      for every line that the parser can give at all. */
  method Reprint(buf: array<char>, cs: seq<ShellCommand>, ghost cl: CommandLine, ghost lo: int, ghost hi: int)
    returns (out: array<char>, cs': seq<ShellCommand>, ghost end: nat)
    requires ShowsLine(buf[..], cs, cl, lo, hi)
    ensures fresh(out) && ShowsLine(out[..], cs', ParseLine(PrintLine(cl)), 0, end)
    ensures RoundTrips(cl) ==> ShowsLine(out[..], cs', cl, 0, end)
  {
    var text := PrintCommandLine(buf, cs, cl, lo, hi);
    ShownTokensFree(buf[..], cs, cl, lo, hi);
    PrintedFree(cl, '\0');
    out := new char[|text| + 1](i requires 0 <= i <= |text| => if i < |text| then text[i] else '\0');
    end := |text|;
    assert out[..][..end] == text;
    ParserUndoesPrinterIff(cl);
    cs' := ParseCommandLine(out, end);
  }
}
