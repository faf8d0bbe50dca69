/** Command lines for a ProxyCommand: quoting, and the shells that take the quoting apart again. */
module ShQuote {
  import opened Words
  import opened Errors

  const SPACE: u8 := 0x20
  const SINGLE: u8 := 0x27
  const DOUBLE: u8 := 0x22
  const PERCENT: u8 := 0x25
  const BACKSLASH: u8 := 0x5c

  // ---- what is written for a POSIX shell ----

  /** One character inside single quotes. */
  function PosixChar(c: u8): bytes {
    if c == SINGLE then [SINGLE, DOUBLE, SINGLE, DOUBLE, SINGLE]
    else if c == PERCENT then [PERCENT, PERCENT]
    else [c]
  }

  function PosixBody(a: bytes): bytes {
    if a == [] then [] else PosixChar(a[0]) + PosixBody(a[1..])
  }

  function PosixArg(a: bytes): bytes {
    [SINGLE] + PosixBody(a) + [SINGLE]
  }

  /** Arguments from the left, with single spaces between them. */
  function Joined(args: seq<bytes>, quote: bytes -> bytes): bytes {
    if args == [] then []
    else if |args| == 1 then quote(args[0])
    else Joined(args[..|args| - 1], quote) + [SPACE] + quote(args[|args| - 1])
  }

  // ---- what OpenSSH does to it first ----

  /** Token expansion: %% is a percent sign; any other token is not ours to expand. */
  function Unpercent(s: bytes): Option<bytes> {
    if s == [] then Some([])
    else if s[0] != PERCENT then Before(s[0], Unpercent(s[1..]))
    else if |s| >= 2 && s[1] == PERCENT then Before(PERCENT, Unpercent(s[2..]))
    else None
  }

  function Before(c: u8, t: Option<bytes>): Option<bytes> {
    if t.None? then None else Some([c] + t.value)
  }

  // ---- what the shell does then: sections 2.2 and 2.3 of the POSIX Shell Command Language ----

  datatype Mode = Bare | InSingle | InDouble

  /** Characters that mean something to the shell when they are not quoted. */
  predicate Special(c: u8) {
    c in {0x7c, 0x26, 0x3b, 0x3c, 0x3e, 0x28, 0x29, 0x24, 0x60, 0x5c, 0x0a, 0x2a, 0x3f, 0x5b, 0x23, 0x7e, 0x3d}
  }

  /** The words of s, given the word that has been begun, if one has; None where more than quoting is involved. */
  function Split(s: bytes, mode: Mode, word: Option<bytes>): Option<seq<bytes>> {
    if s == [] then
      if mode != Bare then None else Some(if word.None? then [] else [word.value])
    else
      var c, rest := s[0], s[1..];
      var w := if word.None? then [] else word.value;
      match mode
      case InSingle =>
        if c == SINGLE then Split(rest, Bare, Some(w)) else Split(rest, InSingle, Some(w + [c]))
      case InDouble =>
        if c == DOUBLE then Split(rest, Bare, Some(w))
        else if c == 0x24 || c == 0x60 || c == BACKSLASH then None
        else Split(rest, InDouble, Some(w + [c]))
      case Bare =>
        if c == SPACE || c == 0x09 then
          if word.None? then Split(rest, Bare, None)
          else
            match Split(rest, Bare, None)
            case Some(ws) => Some([word.value] + ws)
            case None => None
        else if c == SINGLE then Split(rest, InSingle, Some(w))
        else if c == DOUBLE then Split(rest, InDouble, Some(w))
        else if Special(c) then None
        else Split(rest, Bare, Some(w + [c]))
  }

  // ---- one undoes the other ----

  /** The text after token expansion. */
  function ShellBody(a: bytes): bytes {
    if a == [] then []
    else (if a[0] == SINGLE then [SINGLE, DOUBLE, SINGLE, DOUBLE, SINGLE] else [a[0]]) + ShellBody(a[1..])
  }

  function ShellArg(a: bytes): bytes {
    [SINGLE] + ShellBody(a) + [SINGLE]
  }

  lemma {:induction false} UnpercentJoin(a: bytes, b: bytes)
    requires Unpercent(a).Some? && Unpercent(b).Some?
    ensures Unpercent(a + b) == Some(Unpercent(a).value + Unpercent(b).value)
    decreases |a|
  {
    hide Unpercent;
    UnpercentNext(a);
    if a == [] {
      assert a + b == b;
      assert [] + Unpercent(b).value == Unpercent(b).value;
    } else {
      UnpercentNext(a + b);
      var k := if a[0] == PERCENT then 2 else 1;
      UnpercentJoin(a[k..], b);
      assert (a + b)[k..] == a[k..] + b;
      assert [a[0]] + (Unpercent(a[k..]).value + Unpercent(b).value)
          == ([a[0]] + Unpercent(a[k..]).value) + Unpercent(b).value;
    }
  }

  lemma UnpercentNext(s: bytes)
    ensures s == [] ==> Unpercent(s) == Some([])
    ensures s != [] && s[0] != PERCENT ==> Unpercent(s) == Before(s[0], Unpercent(s[1..]))
    ensures |s| >= 2 && s[0] == PERCENT && s[1] == PERCENT ==> Unpercent(s) == Before(PERCENT, Unpercent(s[2..]))
    ensures s != [] && s[0] == PERCENT && Unpercent(s).Some? ==> |s| >= 2 && s[1] == PERCENT
  {
  }

  lemma {:induction false} UnpercentPlain(s: bytes)
    requires PERCENT !in s
    ensures Unpercent(s) == Some(s)
  {
    if s != [] {
      UnpercentPlain(s[1..]);
      assert s == [s[0]] + s[1..];
    }
  }

  lemma {:induction false} UnpercentBody(a: bytes)
    ensures Unpercent(PosixBody(a)) == Some(ShellBody(a))
  {
    if a != [] {
      UnpercentBody(a[1..]);
      UnpercentChar(a[0]);
      hide Unpercent, PosixChar;
      UnpercentJoin(PosixChar(a[0]), PosixBody(a[1..]));
    }
  }

  lemma UnpercentChar(c: u8)
    ensures Unpercent(PosixChar(c)) == Some(if c == SINGLE then [SINGLE, DOUBLE, SINGLE, DOUBLE, SINGLE] else [c])
  {
    if c == PERCENT {
      assert [PERCENT, PERCENT][2..] == [];
      UnpercentNext([PERCENT, PERCENT]);
      assert Unpercent([]) == Some([]) && [PERCENT] + [] == [PERCENT];
    } else {
      UnpercentPlain(PosixChar(c));
    }
  }

  lemma UnpercentArg(a: bytes)
    ensures Unpercent(PosixArg(a)) == Some(ShellArg(a))
  {
    UnpercentBody(a);
    UnpercentPlain([SINGLE]);
    hide Unpercent, PosixBody, ShellBody;
    UnpercentJoin([SINGLE], PosixBody(a));
    UnpercentJoin([SINGLE] + PosixBody(a), [SINGLE]);
  }

  lemma {:induction false} UnpercentArgs(args: seq<bytes>)
    ensures Unpercent(Joined(args, PosixArg)) == Some(Joined(args, ShellArg))
  {
    hide Unpercent, PosixArg, ShellArg;
    if |args| == 0 {
      UnpercentPlain([]);
    } else if |args| == 1 {
      UnpercentArg(args[0]);
    } else {
      var front, last := args[..|args| - 1], args[|args| - 1];
      UnpercentArgs(front);
      UnpercentArg(last);
      UnpercentPlain([SPACE]);
      UnpercentJoin(Joined(front, PosixArg), [SPACE]);
      UnpercentJoin(Joined(front, PosixArg) + [SPACE], PosixArg(last));
    }
  }

  /** Inside the quotes of one argument. */
  lemma {:induction false} SplitBody(a: bytes, w: bytes, rest: bytes)
    ensures Split(ShellBody(a) + ([SINGLE] + rest), InSingle, Some(w)) == Split(rest, Bare, Some(w + a))
    decreases |a|
  {
    var s := ShellBody(a) + ([SINGLE] + rest);
    if a == [] {
      assert s == [SINGLE] + rest && s[1..] == rest && w + a == w;
    } else {
      var t := ShellBody(a[1..]) + ([SINGLE] + rest);
      SplitBody(a[1..], w + [a[0]], rest);
      assert (w + [a[0]]) + a[1..] == w + a;
      if a[0] == SINGLE {
        QuoteInQuotes(s, t, w);
      } else {
        assert s == [a[0]] + t && s[1..] == t;
      }
    }
  }

  /** Close, a quote in double quotes, and open again. */
  lemma QuoteInQuotes(s: bytes, t: bytes, w: bytes)
    requires s == [SINGLE, DOUBLE, SINGLE, DOUBLE, SINGLE] + t
    ensures Split(s, InSingle, Some(w)) == Split(t, InSingle, Some(w + [SINGLE]))
  {
    assert s[1..] == [DOUBLE, SINGLE, DOUBLE, SINGLE] + t;
    assert s[1..][1..] == [SINGLE, DOUBLE, SINGLE] + t;
    assert s[1..][1..][1..] == [DOUBLE, SINGLE] + t;
    assert s[1..][1..][1..][1..] == [SINGLE] + t;
    assert s[1..][1..][1..][1..][1..] == t;
    assert Split(s, InSingle, Some(w)) == Split(s[1..], Bare, Some(w));
    assert Split(s[1..], Bare, Some(w)) == Split(s[1..][1..], InDouble, Some(w));
    assert Split(s[1..][1..], InDouble, Some(w)) == Split(s[1..][1..][1..], InDouble, Some(w + [SINGLE]));
    assert Split(s[1..][1..][1..], InDouble, Some(w + [SINGLE]))
        == Split(s[1..][1..][1..][1..], Bare, Some(w + [SINGLE]));
  }

  lemma SplitArg(a: bytes, rest: bytes)
    ensures Split(ShellArg(a) + rest, Bare, None) == Split(rest, Bare, Some(a))
  {
    var s := ShellArg(a) + rest;
    assert s[1..] == ShellBody(a) + ([SINGLE] + rest);
    hide ShellBody;
    assert Split(s, Bare, None) == Split(s[1..], InSingle, Some([]));
    SplitBody(a, [], rest);
    assert [] + a == a;
  }

  /** Joining from the right: a first argument, and the others after a space. */
  lemma {:induction false} JoinedFirst(args: seq<bytes>, quote: bytes -> bytes)
    requires |args| >= 2
    ensures Joined(args, quote) == quote(args[0]) + ([SPACE] + Joined(args[1..], quote))
  {
    var front, last := args[..|args| - 1], args[|args| - 1];
    if |args| == 2 {
      assert args[1..] == [last] && front == [args[0]];
    } else {
      JoinedFirst(front, quote);
      assert args[1..][..|args| - 2] == front[1..];
      assert Joined(args[1..], quote) == Joined(front[1..], quote) + [SPACE] + quote(last);
    }
  }

  lemma {:induction false} SplitArgs(args: seq<bytes>)
    ensures Split(Joined(args, ShellArg), Bare, None) == Some(args)
  {
    if |args| == 1 {
      SplitArg(args[0], []);
      hide ShellArg;
      assert ShellArg(args[0]) + [] == ShellArg(args[0]);
      assert Split([], Bare, Some(args[0])) == Some([args[0]]) && [args[0]] == args;
    } else if |args| >= 2 {
      var rest := Joined(args[1..], ShellArg);
      SplitArgs(args[1..]);
      JoinedFirst(args, ShellArg);
      SplitArg(args[0], [SPACE] + rest);
      hide ShellArg, Joined;
      SplitSpace(args[0], rest);
      assert [args[0]] + args[1..] == args;
    }
  }

  lemma SplitSpace(a: bytes, rest: bytes)
    requires Split(rest, Bare, None).Some?
    ensures Split([SPACE] + rest, Bare, Some(a)) == Some([a] + Split(rest, Bare, None).value)
  {
    assert ([SPACE] + rest)[1..] == rest;
  }

  /** After token expansion the shell sees exactly the arguments that were joined, whatever bytes they hold. */
  lemma PosixRoundTrip(args: seq<bytes>)
    ensures var t := Unpercent(Joined(args, PosixArg));
            t.Some? && Split(t.value, Bare, None) == Some(args)
  {
    UnpercentArgs(args);
    SplitArgs(args);
  }

  // ---- what is written for Windows ----

  /** How many backslashes a ends with. */
  function Trail(a: bytes): (n: nat)
    ensures n <= |a|
  {
    if a == [] || a[|a| - 1] != BACKSLASH then 0 else 1 + Trail(a[..|a| - 1])
  }

  function Slashes(n: nat): bytes {
    seq(n, _ => BACKSLASH)
  }

  function WindowsArg(a: bytes): bytes {
    [DOUBLE] + a + Slashes(Trail(a)) + [DOUBLE]
  }

  /** Arguments no quoting carries through both cmd.exe and the argument parser. */
  predicate Refused(a: bytes) {
    DOUBLE in a || PERCENT in a || 0x21 in a
  }

  // ---- the Windows argument parser ----

  /** How many backslashes s begins with. */
  function Run(s: bytes): (n: nat)
    ensures n <= |s| && s[..n] == Slashes(n) && (n < |s| ==> s[n] != BACKSLASH)
  {
    if s == [] || s[0] != BACKSLASH then 0
    else
      var n := Run(s[1..]);
      assert s[..n + 1] == [s[0]] + s[1..][..n];
      n + 1
  }

  /**
   * The arguments of s: backslashes are literal unless a quote follows them; 2n and a quote are n backslashes
   * and the end or beginning of a quoted part; 2n + 1 and a quote are n backslashes and a quote character.
   */
  function Argv(s: bytes, quoted: bool, word: Option<bytes>): seq<bytes>
    decreases |s|
  {
    var w := if word.None? then [] else word.value;
    var n := Run(s);
    if s == [] then if word.None? then [] else [word.value]
    else if n > 0 && n < |s| && s[n] == DOUBLE then
      if n % 2 == 0 then Argv(s[n + 1..], !quoted, Some(w + Slashes(n / 2)))
      else Argv(s[n + 1..], quoted, Some(w + Slashes(n / 2) + [DOUBLE]))
    else if n > 0 then Argv(s[n..], quoted, Some(w + Slashes(n)))
    else if s[0] == DOUBLE then Argv(s[1..], !quoted, Some(w))
    else if !quoted && (s[0] == SPACE || s[0] == 0x09) then
      if word.None? then Argv(s[1..], false, None) else [word.value] + Argv(s[1..], false, None)
    else Argv(s[1..], quoted, Some(w + [s[0]]))
  }

  lemma {:induction false} RunOf(n: nat, t: bytes)
    requires t == [] || t[0] != BACKSLASH
    ensures Run(Slashes(n) + t) == n
  {
    var s := Slashes(n) + t;
    if n == 0 {
      assert s == t;
    } else {
      RunOf(n - 1, t);
      assert s[1..] == Slashes(n - 1) + t;
    }
  }

  lemma {:induction false} TrailAll(n: nat)
    ensures Trail(Slashes(n)) == n
  {
    if n > 0 {
      TrailAll(n - 1);
      assert Slashes(n)[..n - 1] == Slashes(n - 1);
    }
  }

  /** A tail's backslashes are the whole's, unless the tail is nothing but backslashes. */
  lemma {:induction false} TrailTail(a: bytes, k: nat)
    requires k < |a| && a[k] != BACKSLASH
    ensures Trail(a) == Trail(a[k + 1..])
    decreases |a|
  {
    if k + 1 == |a| {
      assert a[k + 1..] == [];
    } else if a[|a| - 1] == BACKSLASH {
      var a' := a[..|a| - 1];
      TrailTail(a', k);
      assert a'[k + 1..] == a[k + 1..][..|a| - k - 2];
    }
  }

  /** Inside the quotes of one argument, up to and past its closing quote. */
  lemma {:induction false} ArgvBody(a: bytes, w: bytes, rest: bytes)
    requires DOUBLE !in a
    ensures Argv(a + Slashes(Trail(a)) + ([DOUBLE] + rest), true, Some(w)) == Argv(rest, false, Some(w + a))
    decreases |a|
  {
    var s := a + Slashes(Trail(a)) + ([DOUBLE] + rest);
    var n := Run(a);
    hide Argv, Trail, Run;
    if n == |a| {
      assert a == Slashes(n);
      ArgvSlashes(n, w, rest);
      TrailAll(n);
    } else {
      var c, t := a[n], a[n + 1..];
      TrailTail(a, n);
      var after := t + Slashes(Trail(t)) + ([DOUBLE] + rest);
      assert a == Slashes(n) + ([c] + t);
      assert s == Slashes(n) + ([c] + after);
      ArgvBody(t, w + Slashes(n) + [c], rest);
      assert (w + Slashes(n) + [c]) + t == w + a;
      ArgvPlain(n, c, after, w);
    }
  }

  /** Nothing but backslashes, doubled, before the closing quote. */
  lemma ArgvSlashes(n: nat, w: bytes, rest: bytes)
    ensures Argv(Slashes(n) + Slashes(n) + ([DOUBLE] + rest), true, Some(w)) == Argv(rest, false, Some(w + Slashes(n)))
  {
    var m, s := 2 * n, Slashes(n) + Slashes(n) + ([DOUBLE] + rest);
    assert s == Slashes(m) + ([DOUBLE] + rest);
    RunOf(m, [DOUBLE] + rest);
    hide Run, Slashes;
    assert s[m] == DOUBLE && s[m + 1..] == rest;
    assert m / 2 == n && m % 2 == 0;
    if n == 0 {
      NoSlashes(w);
    } else {
      ArgvQuote(s, m, w);
    }
  }

  lemma NoSlashes(w: bytes)
    ensures w + Slashes(0) == w
  {
  }

  lemma ArgvQuote(s: bytes, m: nat, w: bytes)
    requires 0 < m < |s| && Run(s) == m && s[m] == DOUBLE && m % 2 == 0
    ensures Argv(s, true, Some(w)) == Argv(s[m + 1..], false, Some(w + Slashes(m / 2)))
  {
    hide Run, Slashes;
  }

  /** A run of backslashes before an ordinary character. */
  lemma ArgvPlain(n: nat, c: u8, after: bytes, w: bytes)
    requires c != DOUBLE && c != BACKSLASH
    ensures Argv(Slashes(n) + ([c] + after), true, Some(w)) == Argv(after, true, Some(w + Slashes(n) + [c]))
  {
    var s := Slashes(n) + ([c] + after);
    RunOf(n, [c] + after);
    RunOf(0, [c] + after);
    assert s[n..] == [c] + after;
    assert Slashes(0) + ([c] + after) == [c] + after;
    assert ([c] + after)[1..] == after;
    if n > 0 {
      assert Argv(s, true, Some(w)) == Argv([c] + after, true, Some(w + Slashes(n)));
    } else {
      assert s == [c] + after && w + Slashes(0) == w;
    }
    assert Argv([c] + after, true, Some(w + Slashes(n))) == Argv(after, true, Some(w + Slashes(n) + [c]));
  }

  lemma ArgvArg(a: bytes, rest: bytes)
    requires DOUBLE !in a
    ensures Argv(WindowsArg(a) + rest, false, None) == Argv(rest, false, Some(a))
  {
    var s := WindowsArg(a) + rest;
    assert s[1..] == a + Slashes(Trail(a)) + ([DOUBLE] + rest);
    assert Argv(s, false, None) == Argv(s[1..], true, Some([]));
    ArgvBody(a, [], rest);
    assert [] + a == a;
  }

  /** The parser gives back exactly the arguments, trailing backslashes included. */
  lemma {:induction false} WindowsRoundTrip(args: seq<bytes>)
    requires forall i :: 0 <= i < |args| ==> DOUBLE !in args[i]
    ensures Argv(Joined(args, WindowsArg), false, None) == args
  {
    if |args| == 1 {
      ArgvArg(args[0], []);
      hide WindowsArg;
      assert WindowsArg(args[0]) + [] == WindowsArg(args[0]);
      assert Argv([], false, Some(args[0])) == [args[0]] == args;
    } else if |args| >= 2 {
      var rest := Joined(args[1..], WindowsArg);
      WindowsRoundTrip(args[1..]);
      JoinedFirst(args, WindowsArg);
      ArgvArg(args[0], [SPACE] + rest);
      hide WindowsArg, Joined;
      ArgvSpace(args[0], rest);
      assert [args[0]] + args[1..] == args;
    }
  }

  lemma ArgvSpace(a: bytes, rest: bytes)
    ensures Argv([SPACE] + rest, false, Some(a)) == [a] + Argv(rest, false, None)
  {
    assert ([SPACE] + rest)[1..] == rest;
  }

  // ---- the code ----

  /** What is still to be written, from argument i on. */
  function Rest(args: seq<bytes>, i: nat, quote: bytes -> bytes): bytes
    requires i <= |args|
    decreases |args| - i
  {
    if i == |args| then [] else (if i > 0 then [SPACE] else []) + (quote(args[i]) + Rest(args, i + 1, quote))
  }

  lemma {:induction false} RestIs(args: seq<bytes>, i: nat, quote: bytes -> bytes)
    requires i <= |args|
    ensures Rest(args, i, quote)
         == if i == |args| then [] else (if i > 0 then [SPACE] else []) + Joined(args[i..], quote)
    decreases |args| - i
  {
    if i < |args| {
      RestIs(args, i + 1, quote);
      var t := args[i..];
      assert t[0] == args[i] && t[1..] == args[i + 1..];
      if |t| == 1 {
        assert quote(args[i]) + [] == quote(args[i]);
      } else {
        JoinedFirst(t, quote);
      }
    }
  }

  lemma RestNext(args: seq<bytes>, i: nat, quote: bytes -> bytes)
    requires i <= |args|
    ensures i == |args| ==> Rest(args, i, quote) == []
    ensures i < |args| ==>
              var more := quote(args[i]) + Rest(args, i + 1, quote);
              Rest(args, i, quote) == if i > 0 then [SPACE] + more else more
  {
    if i < |args| {
      var more := quote(args[i]) + Rest(args, i + 1, quote);
      assert [] + more == more;
    }
  }

  lemma RestStart(args: seq<bytes>, quote: bytes -> bytes)
    ensures Rest(args, 0, quote) == Joined(args, quote)
  {
    RestIs(args, 0, quote);
    assert args[0..] == args && [] + Joined(args, quote) == Joined(args, quote);
  }

  /** `app`: with more still to write, failure means the whole text does not fit. */
  method App(out: array<u8>, off: nat, c: u8, ghost all: bytes, ghost rest: bytes) returns (ok: bool, off': nat)
    requires off < out.Length && all == out[..off] + ([c] + rest)
    modifies out
    ensures if ok then off' < out.Length && all == out[..off'] + rest && out[off'] == 0 else |all| >= out.Length
  {
    if off + 1 >= out.Length {
      return false, off;
    }
    ghost var done := out[..off];
    out[off] := c;
    off' := off + 1;
    out[off'] := 0;
    assert out[..off'] == done + [c];
    assert (done + [c]) + rest == done + ([c] + rest);
    ok := true;
  }

  /** `app_str` */
  method AppStr(out: array<u8>, off: nat, s: bytes, ghost all: bytes, ghost rest: bytes) returns (ok: bool, off': nat)
    requires off < out.Length && all == out[..off] + (s + rest) && out[off] == 0
    modifies out
    ensures if ok then off' < out.Length && all == out[..off'] + rest && out[off'] == 0 else |all| >= out.Length
  {
    off' := off;
    var k := 0;
    assert s[0..] == s;
    while k < |s|
      invariant 0 <= k <= |s| && off' < out.Length && all == out[..off'] + (s[k..] + rest) && out[off'] == 0
    {
      assert s[k..] + rest == [s[k]] + (s[k + 1..] + rest);
      ok, off' := App(out, off', s[k], all, s[k + 1..] + rest);
      if !ok {
        return;
      }
      k := k + 1;
    }
    assert s[k..] + rest == rest;
    ok := true;
  }

  /** `has_control` */
  method HasControl(s: bytes) returns (found: bool)
    ensures found <==> Control(s)
  {
    var i := 0;
    while i < |s|
      invariant 0 <= i <= |s| && forall j :: 0 <= j < i ==> s[j] >= 0x20 && s[j] != 0x7f
    {
      if s[i] < 0x20 || s[i] == 0x7f {
        return true;
      }
      i := i + 1;
    }
    return false;
  }

  predicate Control(s: bytes) {
    exists i :: 0 <= i < |s| && (s[i] < 0x20 || s[i] == 0x7f)
  }

  lemma BodyNext(a: bytes, k: nat, t: bytes)
    requires k < |a|
    ensures PosixBody(a[k..]) + t == PosixChar(a[k]) + (PosixBody(a[k + 1..]) + t)
  {
    hide PosixChar;
    assert a[k..][1..] == a[k + 1..];
  }

  /** One argument of `join_posix`, quotes included. */
  method PosixOne(out: array<u8>, off: nat, a: bytes, ghost all: bytes, ghost rest: bytes) returns (ok: bool, off': nat)
    requires off < out.Length && all == out[..off] + (PosixArg(a) + rest) && out[off] == 0
    modifies out
    ensures if ok then off' < out.Length && all == out[..off'] + rest && out[off'] == 0 else |all| >= out.Length
  {
    hide PosixBody, PosixChar;
    ghost var tail := [SINGLE] + rest;
    assert PosixArg(a) + rest == [SINGLE] + (PosixBody(a) + tail);
    ok, off' := App(out, off, SINGLE, all, PosixBody(a) + tail);
    if !ok {
      return;
    }
    var p := 0;
    assert a[0..] == a;
    while p < |a|
      invariant 0 <= p <= |a| && off' < out.Length && all == out[..off'] + (PosixBody(a[p..]) + tail) && out[off'] == 0
    {
      BodyNext(a, p, tail);
      ok, off' := PosixOneChar(out, off', a[p], all, PosixBody(a[p + 1..]) + tail);
      if !ok {
        return;
      }
      p := p + 1;
    }
    NoBody(a[p..], tail);
    ok, off' := App(out, off', SINGLE, all, rest);
  }

  lemma NoBody(a: bytes, t: bytes)
    requires a == []
    ensures PosixBody(a) + t == t
  {
  }

  method PosixOneChar(out: array<u8>, off: nat, c: u8, ghost all: bytes, ghost rest: bytes)
    returns (ok: bool, off': nat)
    requires off < out.Length && all == out[..off] + (PosixChar(c) + rest) && out[off] == 0
    modifies out
    ensures if ok then off' < out.Length && all == out[..off'] + rest && out[off'] == 0 else |all| >= out.Length
  {
    if c == SINGLE {
      ok, off' := AppStr(out, off, [SINGLE, DOUBLE, SINGLE, DOUBLE, SINGLE], all, rest);
    } else if c == PERCENT {
      ok, off' := AppStr(out, off, [PERCENT, PERCENT], all, rest);
    } else {
      ok, off' := App(out, off, c, all, rest);
    }
  }

  /** `join_posix` */
  method JoinPosix(out: array<u8>, args: seq<bytes>) returns (rc: Result<nat>)
    requires out.Length > 0
    modifies out
    ensures rc == if |Joined(args, PosixArg)| < out.Length then Ok(|Joined(args, PosixArg)|) else Err(NoSpace)
    ensures rc.Ok? ==> out[..rc.value] == Joined(args, PosixArg) && out[rc.value] == 0
  {
    ghost var all := Joined(args, PosixArg);
    RestStart(args, PosixArg);
    hide Rest, Joined, PosixArg;
    var off: nat := 0;
    out[0] := 0;
    assert out[..0] == [] && [] + all == all;
    var i := 0;
    while i < |args|
      invariant 0 <= i <= |args| && off < out.Length && all == out[..off] + Rest(args, i, PosixArg) && out[off] == 0
    {
      var ok;
      ghost var more := PosixArg(args[i]) + Rest(args, i + 1, PosixArg);
      RestNext(args, i, PosixArg);
      if i > 0 {
        ok, off := App(out, off, SPACE, all, more);
        if !ok {
          return Err(NoSpace);
        }
      }
      ok, off := PosixOne(out, off, args[i], all, Rest(args, i + 1, PosixArg));
      if !ok {
        return Err(NoSpace);
      }
      i := i + 1;
    }
    RestNext(args, i, PosixArg);
    assert out[..off] + [] == out[..off];
    return Ok(off);
  }

  /** The loop that counts trailing backslashes. */
  method CountTrail(a: bytes) returns (trail: nat)
    ensures trail == Trail(a)
  {
    trail := 0;
    var len := |a|;
    assert a[..len] == a;
    while trail < len && a[len - 1 - trail] == BACKSLASH
      invariant 0 <= trail <= len && Trail(a) == trail + Trail(a[..len - trail])
    {
      var b := a[..len - trail];
      assert b[..|b| - 1] == a[..len - trail - 1];
      trail := trail + 1;
    }
  }

  /** One argument of `join_windows`, quotes included. */
  method WindowsOne(out: array<u8>, off: nat, a: bytes, ghost all: bytes, ghost rest: bytes)
    returns (ok: bool, off': nat)
    requires off < out.Length && all == out[..off] + (WindowsArg(a) + rest) && out[off] == 0
    modifies out
    ensures if ok then off' < out.Length && all == out[..off'] + rest && out[off'] == 0 else |all| >= out.Length
  {
    ghost var tail := Slashes(Trail(a)) + ([DOUBLE] + rest);
    assert WindowsArg(a) + rest == [DOUBLE] + (a + tail);
    hide Trail;
    ok, off' := App(out, off, DOUBLE, all, a + tail);
    if !ok {
      return;
    }
    ok, off' := AppStr(out, off', a, all, tail);
    if !ok {
      return;
    }
    var trail := CountTrail(a);
    var k := 0;
    while k < trail
      invariant 0 <= k <= trail && off' < out.Length && out[off'] == 0
      invariant all == out[..off'] + (Slashes(trail - k) + ([DOUBLE] + rest))
    {
      ghost var more := Slashes(trail - k - 1) + ([DOUBLE] + rest);
      assert Slashes(trail - k) + ([DOUBLE] + rest) == [BACKSLASH] + more;
      ok, off' := App(out, off', BACKSLASH, all, more);
      if !ok {
        return;
      }
      k := k + 1;
    }
    assert Slashes(0) + ([DOUBLE] + rest) == [DOUBLE] + rest;
    ok, off' := App(out, off', DOUBLE, all, rest);
  }

  /** `join_windows` */
  method JoinWindows(out: array<u8>, args: seq<bytes>) returns (rc: Result<nat>)
    requires out.Length > 0
    modifies out
    ensures rc.Ok? <==> (forall i :: 0 <= i < |args| ==> !Refused(args[i])) && |Joined(args, WindowsArg)| < out.Length
    ensures rc.Ok? ==> rc.value == |Joined(args, WindowsArg)| && out[rc.value] == 0
    ensures rc.Ok? ==> out[..rc.value] == Joined(args, WindowsArg)
    ensures rc == Err(Inval) ==> exists i :: 0 <= i < |args| && Refused(args[i])
    ensures rc == Err(NoSpace) ==> |Joined(args, WindowsArg)| >= out.Length
    ensures rc.Err? ==> rc.error in {Inval, NoSpace}
  {
    ghost var all := Joined(args, WindowsArg);
    RestStart(args, WindowsArg);
    hide Rest, Joined, WindowsArg, Refused;
    var off: nat := 0;
    out[0] := 0;
    assert out[..0] == [] && [] + all == all;
    var i := 0;
    while i < |args|
      invariant 0 <= i <= |args| && off < out.Length && all == out[..off] + Rest(args, i, WindowsArg) && out[off] == 0
      invariant forall j :: 0 <= j < i ==> !Refused(args[j])
    {
      if Refused(args[i]) {
        return Err(Inval);
      }
      var ok;
      ghost var more := WindowsArg(args[i]) + Rest(args, i + 1, WindowsArg);
      RestNext(args, i, WindowsArg);
      if i > 0 {
        ok, off := App(out, off, SPACE, all, more);
        if !ok {
          return Err(NoSpace);
        }
      }
      ok, off := WindowsOne(out, off, args[i], all, Rest(args, i + 1, WindowsArg));
      if !ok {
        return Err(NoSpace);
      }
      i := i + 1;
    }
    RestNext(args, i, WindowsArg);
    assert out[..off] + [] == out[..off];
    return Ok(off);
  }

  /** The command line for either system. */
  function Line(args: seq<bytes>, windows: bool): bytes {
    if windows then Joined(args, WindowsArg) else Joined(args, PosixArg)
  }

  /** `tc_proxycmd_join` */
  method ProxycmdJoin(out: array<u8>, args: seq<bytes>, windows: bool) returns (rc: Result<nat>)
    modifies out
    ensures rc.Ok? <==>
              && out.Length > |Line(args, windows)|
              && forall i :: 0 <= i < |args| ==> !Control(args[i]) && !(windows && Refused(args[i]))
    ensures rc.Ok? ==> rc.value == |Line(args, windows)| && out[..rc.value] == Line(args, windows) && out[rc.value] == 0
    ensures rc == Err(NoSpace) ==> |Line(args, windows)| >= out.Length
    ensures rc.Err? ==> rc.error in {Inval, NoSpace}
  {
    hide Joined, Control, Refused;
    if out.Length == 0 {
      return Err(Inval);
    }
    var i := 0;
    while i < |args|
      invariant 0 <= i <= |args| && forall j :: 0 <= j < i ==> !Control(args[j])
    {
      var bad := HasControl(args[i]);
      if bad {
        return Err(Inval);
      }
      i := i + 1;
    }
    if windows {
      rc := JoinWindows(out, args);
    } else {
      rc := JoinPosix(out, args);
    }
  }
}
