/** The helpers of the Bluetooth transport used by the Bluetooth-attached
    boards: the 8-bit additive checksum over a frame, the timeout handling
    and return-code mapping of a receive, and the rule by which a device's
    address is picked out of the `bt-device --list` listing. Each `char` of
    a listing stands for one byte of it, as the C string functions count
    them. */
module Bluetooth {

  import opened Options

  const NUL: char := 0 as char

  type ulong = x: int | 0 <= x < 0x1_0000_0000_0000_0000

  // ---------------------------------------------------------------------
  // calcChecksum
  // ---------------------------------------------------------------------

  /** An `unsigned char`. */
  type byte = x: int | 0 <= x < 256

  /** The arithmetic sum of the bytes of s. */
  function Sum(s: seq<byte>): (r: nat)
    ensures r <= 255 * |s|
  {
    if |s| == 0 then 0 else Sum(s[..|s| - 1]) + s[|s| - 1]
  }

  /** The 8-bit additive checksum: the sum of the bytes modulo 256. */
  function Checksum(s: seq<byte>): (c: byte)
    ensures s == [] ==> c == 0
  {
    Sum(s) % 256
  }

  /** calcChecksum: the bytes buffer[0..length) added into an `unsigned char`
      accumulator, which wraps modulo 256; a length of zero or less leaves it
      0. */
  method CalcChecksum(buffer: seq<byte>, length: int) returns (checksum: byte)
    requires length <= |buffer|
    ensures length <= 0 ==> checksum == 0
    ensures length >= 0 ==> checksum == Checksum(buffer[..length])
  {
    checksum := 0;
    var i := 0;
    while i < length
      invariant 0 <= i <= if length < 0 then 0 else length
      invariant checksum == Sum(buffer[..i]) % 256
    {
      assert buffer[..i + 1][..i] == buffer[..i];
      AddMod256(Sum(buffer[..i]), buffer[i]);
      checksum := (checksum + buffer[i]) % 256;
      i := i + 1;
    }
  }

  /** Extending the range by one byte adds that byte, modulo 256. */
  lemma ChecksumAppend(s: seq<byte>, b: byte)
    ensures Checksum(s + [b]) == (Checksum(s) + b) % 256
  {
    assert (s + [b])[..|s|] == s;
    AddMod256(Sum(s), b);
  }

  lemma {:induction false} SumConcat(a: seq<byte>, b: seq<byte>)
    ensures Sum(a + b) == Sum(a) + Sum(b)
    decreases |b|
  {
    if b == [] {
      assert a + b == a;
    } else {
      var b' := b[..|b| - 1];
      assert (a + b)[..|a + b| - 1] == a + b';
      SumConcat(a, b');
    }
  }

  /** The checksum of a frame built from two parts is the checksum of their
      checksums: a sender may checksum a header and a payload apart. */
  lemma ChecksumConcat(a: seq<byte>, b: seq<byte>)
    ensures Checksum(a + b) == (Checksum(a) + Checksum(b)) % 256
  {
    SumConcat(a, b);
    AddMod256(Sum(a), Sum(b));
  }

  /** Reducing each summand modulo 256 first does not change the sum
      modulo 256. */
  lemma AddMod256(x: nat, y: nat)
    ensures (x + y) % 256 == (x % 256 + y % 256) % 256
  {
    var qx, qy := x / 256, y / 256;
    assert x == 256 * qx + x % 256;
    assert y == 256 * qy + y % 256;
    assert x + y == 256 * (qx + qy) + (x % 256 + y % 256);
  }

  // ---------------------------------------------------------------------
  // receiveMessage
  // ---------------------------------------------------------------------

  /** A `struct timeval`. */
  datatype TimeVal = TimeVal(sec: int, usec: int)

  /** The millisecond timeout split into the seconds and microseconds that
      select() waits. */
  function SplitTimeout(timeout: ulong): (t: TimeVal)
    ensures 0 <= t.sec && 0 <= t.usec < 1_000_000 && t.usec % 1000 == 0
    ensures t.sec * 1000 + t.usec / 1000 == timeout
  {
    var s := timeout / 1000;
    TimeVal(s, (timeout - s * 1000) * 1000)
  }

  /** Those properties pin the split down: it is the only well-formed
      timeval that adds up to the timeout. */
  lemma SplitTimeoutUnique(timeout: ulong, t: TimeVal)
    requires 0 <= t.sec && 0 <= t.usec < 1_000_000 && t.usec % 1000 == 0
    requires t.sec * 1000 + t.usec / 1000 == timeout
    ensures t == SplitTimeout(timeout)
  {
    var u := SplitTimeout(timeout);
    assert t.usec / 1000 < 1000 && u.usec / 1000 < 1000;
    assert t.sec == u.sec;
    assert t.usec / 1000 == u.usec / 1000;
  }

  /** The value handed to setsockopt(SO_RCVTIMEO): the timeout plus 100 in
      `unsigned long` arithmetic, which wraps past 2^64 - 1. */
  function ReceiveTimeoutOption(timeout: ulong): (v: ulong)
    ensures timeout < 0x1_0000_0000_0000_0000 - 100 ==> v == timeout + 100
    ensures timeout >= 0x1_0000_0000_0000_0000 - 100 ==> v < 100
  {
    (timeout + 100) % 0x1_0000_0000_0000_0000
  }

  /** What receiveMessage does for one call: the socket option it sets, the
      wait it asks select() for, whether it calls recv(), and what it
      returns. */
  datatype Receive = Receive(option: Option<ulong>, wait: Option<TimeVal>, received: bool, ret: int)

  /** receiveMessage, with the outcomes of select() and recv() as inputs
      (select: -1 error, 0 timed out, more than 0 ready). */
  function ReceiveMessage(sock: int, timeout: ulong, selected: int, recvCount: int): (r: Receive)
    ensures sock < 0 ==> r == Receive(None, None, false, -1)
    ensures sock >= 0 ==> r.option == Some(ReceiveTimeoutOption(timeout)) && r.wait == Some(SplitTimeout(timeout))
    ensures r.received <==> sock >= 0 && selected != 0 && selected != -1
    ensures r.received ==> r.ret == recvCount
    ensures !r.received ==> r.ret == -1
  {
    if sock < 0 then Receive(None, None, false, -1)
    else
      var opt := Some(ReceiveTimeoutOption(timeout));
      var wait := Some(SplitTimeout(timeout));
      if selected == 0 || selected == -1 then Receive(opt, wait, false, -1)
      else Receive(opt, wait, true, recvCount)
  }

  // ---------------------------------------------------------------------
  // discoverDevice: C strings
  // ---------------------------------------------------------------------

  /** The C string held in a buffer: everything before the first NUL. */
  function CString(s: seq<char>): (r: seq<char>)
    ensures r <= s && NUL !in r
    ensures |r| < |s| ==> s[|r|] == NUL
  {
    if s == [] || s[0] == NUL then [] else [s[0]] + CString(s[1..])
  }

  /** A buffer read as a C string, with NUL past its end. */
  function CharAt(s: seq<char>, i: nat): char {
    if i < |s| then s[i] else NUL
  }

  /** strncmp(a, b, n) == 0. */
  function StrNEq(a: seq<char>, b: seq<char>, n: nat): (r: bool)
    ensures a == b ==> r
    decreases n
  {
    if n == 0 then true
    else if CharAt(a, 0) != CharAt(b, 0) then false
    else if CharAt(a, 0) == NUL then true
    else StrNEq(a[1..], b[1..], n - 1)
  }

  function Min(a: int, b: int): int {
    if a < b then a else b
  }

  /** strncmp compares the C strings of its arguments, at most n characters
      of each. */
  lemma {:induction false} StrNEqMeaning(a: seq<char>, b: seq<char>, n: nat)
    ensures StrNEq(a, b, n) <==>
      CString(a)[..Min(n, |CString(a)|)] == CString(b)[..Min(n, |CString(b)|)]
    decreases n
  {
    var ca, cb := CString(a), CString(b);
    if n == 0 {
    } else if CharAt(a, 0) != CharAt(b, 0) {
      if ca == [] || cb == [] {
        assert ca != [] ==> ca[..Min(n, |ca|)][0] == a[0];
        assert cb != [] ==> cb[..Min(n, |cb|)][0] == b[0];
      } else {
        assert ca[..Min(n, |ca|)][0] == a[0] && cb[..Min(n, |cb|)][0] == b[0];
      }
    } else if CharAt(a, 0) == NUL {
      assert ca == [] && cb == [];
    } else {
      StrNEqMeaning(a[1..], b[1..], n - 1);
      var ta, tb := CString(a[1..]), CString(b[1..]);
      assert ca == [a[0]] + ta;
      assert cb == [b[0]] + tb;
      assert Min(n, |ca|) == 1 + Min(n - 1, |ta|);
      assert Min(n, |cb|) == 1 + Min(n - 1, |tb|);
      assert ca[..Min(n, |ca|)] == [a[0]] + ta[..Min(n - 1, |ta|)];
      assert cb[..Min(n, |cb|)] == [b[0]] + tb[..Min(n - 1, |tb|)];
      assert a[0] == b[0];
      calc {
        ca[..Min(n, |ca|)] == cb[..Min(n, |cb|)];
        [a[0]] + ta[..Min(n - 1, |ta|)] == [a[0]] + tb[..Min(n - 1, |tb|)];
        { SameHeadConcat(a[0], ta[..Min(n - 1, |ta|)], tb[..Min(n - 1, |tb|)]); }
        ta[..Min(n - 1, |ta|)] == tb[..Min(n - 1, |tb|)];
      }
    }
  }

  lemma SameHeadConcat(c: char, x: seq<char>, y: seq<char>)
    ensures [c] + x == [c] + y <==> x == y
  {
    if [c] + x == [c] + y {
      assert x == ([c] + x)[1..] && y == ([c] + y)[1..];
    }
  }

  /** With n = strlen(name), strncmp(line, name, n) == 0 says exactly that
      the line starts with name. */
  lemma PrefixMatch(line: seq<char>, name: seq<char>)
    requires NUL !in name
    ensures StrNEq(line, name, |name|) <==> name <= CString(line)
  {
    StrNEqMeaning(line, name, |name|);
    CStringOfPlain(name);
    var c := CString(line);
    var m := Min(|name|, |c|);
    assert name[..|name|] == name;
    if name <= c {
      assert m == |name| && c[..m] == name;
    }
    if c[..m] == name {
      assert m == |name|;
    }
  }

  lemma {:induction false} CStringOfPlain(s: seq<char>)
    requires NUL !in s
    ensures CString(s) == s
  {
    if s != [] {
      CStringOfPlain(s[1..]);
    }
  }

  /** With n larger than strlen(name), a line matches only when its whole C
      string is name. */
  lemma WholeMatch(line: seq<char>, name: seq<char>, n: nat)
    requires NUL !in name && |name| < n
    ensures StrNEq(line, name, n) <==> CString(line) == name
  {
    StrNEqMeaning(line, name, n);
    CStringOfPlain(name);
  }

  /** With n smaller than strlen(name), only the first n characters of name
      take part. */
  lemma PartialMatch(line: seq<char>, name: seq<char>, n: nat)
    requires NUL !in name && n <= |name|
    ensures StrNEq(line, name, n) <==> name[..n] <= CString(line)
  {
    StrNEqMeaning(line, name, n);
    CStringOfPlain(name);
  }

  // ---------------------------------------------------------------------
  // discoverDevice: fgets
  // ---------------------------------------------------------------------

  /** fgets(var, sizeof(var), fp) with `char var[80]` reads at most 79
      characters. */
  const FGETS_MAX := 79

  /** How many characters one fgets call takes from the front of t: up to
      and including the first newline, at most k. */
  function ChunkLength(t: seq<char>, k: nat): (n: nat)
    ensures n <= |t| && n <= k
    ensures t != [] && k > 0 ==> n >= 1
    ensures forall i :: 0 <= i < n - 1 ==> t[i] != '\n'
    ensures n < |t| && n < k ==> n >= 1 && t[n - 1] == '\n'
    decreases k
  {
    if t == [] || k == 0 then 0
    else if t[0] == '\n' then 1
    else 1 + ChunkLength(t[1..], k - 1)
  }

  /** The buffers that successive fgets calls return on the stream text,
      until it returns NULL at end of file. */
  function Lines(text: seq<char>): (r: seq<seq<char>>)
    ensures |r| <= |text|
    ensures r == [] <==> text == []
    decreases |text|
  {
    if text == [] then []
    else
      var n := ChunkLength(text, FGETS_MAX);
      [text[..n]] + Lines(text[n..])
  }

  function Concat(ls: seq<seq<char>>): seq<char> {
    if ls == [] then [] else ls[0] + Concat(ls[1..])
  }

  /** What one fgets buffer can hold: 1 to 79 characters, a newline only
      as the last of them. */
  predicate FgetsLine(l: seq<char>) {
    1 <= |l| <= FGETS_MAX && forall j :: 0 <= j < |l| - 1 ==> l[j] != '\n'
  }

  /** fgets loses nothing and invents nothing: the lines put together are
      the stream, each is non-empty, at most 79 characters long, and a
      newline can only be its last character. */
  lemma {:induction false} LinesPartitionText(text: seq<char>)
    ensures Concat(Lines(text)) == text
    ensures forall i :: 0 <= i < |Lines(text)| ==> FgetsLine(Lines(text)[i])
  {
    LinesConcatToText(text);
    LinesAreBuffers(text);
  }

  lemma {:induction false} LinesConcatToText(text: seq<char>)
    ensures Concat(Lines(text)) == text
    decreases |text|
  {
    if text != [] {
      var n := ChunkLength(text, FGETS_MAX);
      LinesFront(text);
      LinesConcatToText(text[n..]);
      ConcatSplit(Lines(text), text, n);
    }
  }

  lemma ConcatSplit(ls: seq<seq<char>>, text: seq<char>, n: nat)
    requires ls != [] && n <= |text|
    requires ls[0] == text[..n] && Concat(ls[1..]) == text[n..]
    ensures Concat(ls) == text
  {
    ConcatFront(ls);
    assert text[..n] + text[n..] == text;
  }

  /** The first fgets buffer and the ones after it. */
  lemma LinesFront(text: seq<char>)
    requires text != []
    ensures Lines(text)[0] == text[..ChunkLength(text, FGETS_MAX)]
    ensures Lines(text)[1..] == Lines(text[ChunkLength(text, FGETS_MAX)..])
  {
  }

  lemma ConcatFront(ls: seq<seq<char>>)
    requires ls != []
    ensures Concat(ls) == ls[0] + Concat(ls[1..])
  {
  }

  lemma {:induction false} LinesAreBuffers(text: seq<char>)
    ensures forall i :: 0 <= i < |Lines(text)| ==> FgetsLine(Lines(text)[i])
    decreases |text|
  {
    if text != [] {
      var n := ChunkLength(text, FGETS_MAX);
      var tail := Lines(text[n..]);
      LinesAreBuffers(text[n..]);
      FirstChunkIsLine(text);
      var ls := Lines(text);
      assert ls == [text[..n]] + tail;
      forall i | 0 <= i < |ls|
        ensures FgetsLine(ls[i])
      {
        if i > 0 {
          assert ls[i] == tail[i - 1];
        }
      }
    }
  }

  /** The first buffer fgets returns from a non-empty stream. */
  lemma FirstChunkIsLine(text: seq<char>)
    requires text != []
    ensures FgetsLine(text[..ChunkLength(text, FGETS_MAX)])
  {
    var n := ChunkLength(text, FGETS_MAX);
    var first := text[..n];
    assert forall j :: 0 <= j < n ==> first[j] == text[j];
  }

  /** A listing line fgets returns whole: at most 79 characters, ending in
      its newline and holding no other. */
  predicate CompleteLine(l: seq<char>) {
    FgetsLine(l) && l[|l| - 1] == '\n'
  }

  /** fgets stops right after the newline of a complete line at the front
      of the stream. */
  lemma {:induction false} ChunkOfCompleteLine(l: seq<char>, rest: seq<char>, k: nat)
    requires 1 <= |l| <= k && l[|l| - 1] == '\n'
    requires forall j :: 0 <= j < |l| - 1 ==> l[j] != '\n'
    ensures ChunkLength(l + rest, k) == |l|
    decreases |l|
  {
    var t := l + rest;
    if |l| > 1 {
      assert t[0] == l[0] && l[0] != '\n';
      assert t[1..] == l[1..] + rest;
      assert forall j :: 0 <= j < |l| - 2 ==> l[1..][j] == l[j + 1];
      ChunkOfCompleteLine(l[1..], rest, k - 1);
    }
  }

  /** A complete line at the front of the stream is one fgets buffer. */
  lemma LinesAfterCompleteLine(l: seq<char>, rest: seq<char>)
    requires CompleteLine(l)
    ensures Lines(l + rest) == [l] + Lines(rest)
  {
    var t := l + rest;
    ChunkOfCompleteLine(l, rest, FGETS_MAX);
    assert t[..|l|] == l;
    assert t[|l|..] == rest;
  }

  /** The text of a line followed by more lines, followed by post. */
  lemma ConcatCons(l: seq<char>, more: seq<seq<char>>, post: seq<char>)
    ensures Concat([l] + more) + post == l + (Concat(more) + post)
  {
    var ls := [l] + more;
    assert ls[0] == l && ls[1..] == more;
    assert Concat(ls) == l + Concat(more);
  }

  lemma LinesStep(l: seq<char>, more: seq<seq<char>>, post: seq<char>)
    requires CompleteLine(l)
    requires Lines(Concat(more) + post) == more + Lines(post)
    ensures Lines(Concat([l] + more) + post) == ([l] + more) + Lines(post)
  {
    var rest := Concat(more) + post;
    calc {
      Lines(Concat([l] + more) + post);
      { ConcatCons(l, more, post); }
      Lines(l + rest);
      { LinesAfterCompleteLine(l, rest); }
      [l] + Lines(rest);
      [l] + (more + Lines(post));
      { AppendAssoc([l], more, Lines(post)); }
      ([l] + more) + Lines(post);
    }
  }

  lemma AppendAssoc<T>(a: seq<T>, b: seq<T>, c: seq<T>)
    ensures a + (b + c) == (a + b) + c
  {
  }

  /** A stream that starts with complete lines is read as those lines, then
      as whatever follows them would be read on its own. */
  lemma {:induction false} LinesOfCompleteLines(ls: seq<seq<char>>, post: seq<char>)
    requires forall i :: 0 <= i < |ls| ==> CompleteLine(ls[i])
    ensures Lines(Concat(ls) + post) == ls + Lines(post)
    decreases |ls|
  {
    if ls != [] {
      var l, more := ls[0], ls[1..];
      assert ls == [l] + more;
      assert forall i :: 0 <= i < |more| ==> CompleteLine(more[i]) by {
        assert forall i :: 0 <= i < |more| ==> more[i] == ls[i + 1];
      }
      LinesOfCompleteLines(more, post);
      LinesStep(l, more, post);
    } else {
      assert Concat(ls) + post == post;
    }
  }

  lemma {:induction false} ConcatAppend(a: seq<seq<char>>, b: seq<seq<char>>)
    ensures Concat(a + b) == Concat(a) + Concat(b)
    decreases |a|
  {
    if a != [] {
      assert (a + b)[1..] == a[1..] + b;
      ConcatAppend(a[1..], b);
    } else {
      assert a + b == b;
    }
  }

  // ---------------------------------------------------------------------
  // discoverDevice: strtok and strncpy
  // ---------------------------------------------------------------------

  /** The first index from i on that is not the delimiter '('. */
  function SkipDelims(s: seq<char>, i: nat): (j: nat)
    requires i <= |s|
    ensures i <= j <= |s|
    ensures forall k :: i <= k < j ==> s[k] == '('
    ensures j < |s| ==> s[j] != '('
    decreases |s| - i
  {
    if i == |s| || s[i] != '(' then i else SkipDelims(s, i + 1)
  }

  /** The first index from i on that holds the delimiter '(', or the end. */
  function TokenEnd(s: seq<char>, i: nat): (j: nat)
    requires i <= |s|
    ensures i <= j <= |s|
    ensures forall k :: i <= k < j ==> s[k] != '('
    ensures j < |s| ==> s[j] == '('
    decreases |s| - i
  {
    if i == |s| || s[i] == '(' then i else TokenEnd(s, i + 1)
  }

  /** `strtok(var, "("); strtok(NULL, "(")`: the second token of the C
      string s, or None where the second call returns NULL. */
  function SecondToken(s: seq<char>): (r: Option<seq<char>>)
    ensures r.Some? ==> |r.value| > 0 && '(' !in r.value
    ensures '(' !in s ==> r.None?
  {
    var j1 := SkipDelims(s, 0);
    if j1 == |s| then None
    else
      var k1 := TokenEnd(s, j1);
      if k1 == |s| then None
      else
        var j2 := SkipDelims(s, k1 + 1);
        if j2 == |s| then None
        else Some(s[j2..TokenEnd(s, j2)])
  }

  /** TokenEnd stops at the first '(' from i on. */
  lemma {:induction false} TokenEndAt(s: seq<char>, i: nat, k: nat)
    requires i <= k <= |s|
    requires forall m :: i <= m < k ==> s[m] != '('
    requires k < |s| ==> s[k] == '('
    ensures TokenEnd(s, i) == k
    decreases k - i
  {
    if i < k {
      TokenEndAt(s, i + 1, k);
    }
  }

  /** The token strtok returns when its scan resumes at index j: None at
      the end of the string, otherwise the text up to the next '(' or the
      end. */
  function TokenFrom(s: seq<char>, j: nat): (r: Option<seq<char>>)
    requires j <= |s|
    ensures r.None? <==> j == |s|
  {
    if j == |s| then None else Some(s[j..TokenEnd(s, j)])
  }

  /** In a line whose first '(' is at index k > 0, `strtok(NULL, "(")`
      resumes after that '(', skips any further '(' characters and returns
      the text from there up to the next '(' or the end; it returns NULL
      when nothing but '(' follows. */
  lemma SecondTokenAfterFirstParen(s: seq<char>, k: nat)
    requires 0 < k < |s| && s[k] == '('
    requires forall m :: 0 <= m < k ==> s[m] != '('
    ensures SecondToken(s) == TokenFrom(s, SkipDelims(s, k + 1))
  {
    assert SkipDelims(s, 0) == 0;
    TokenEndAt(s, 0, k);
  }

  /** In a line whose first '(' is at index k > 0 and whose next '(' (or
      end) is at t, with a character between them, the second token is the
      text strictly between the two. */
  lemma SecondTokenBetween(s: seq<char>, k: nat, t: nat)
    requires 0 < k && k + 1 < t <= |s| && s[k] == '('
    requires forall m :: 0 <= m < t && m != k ==> s[m] != '('
    requires t < |s| ==> s[t] == '('
    ensures SecondToken(s) == Some(s[k + 1..t])
  {
    SecondTokenAfterFirstParen(s, k);
    assert SkipDelims(s, k + 1) == k + 1;
    TokenEndAt(s, k + 1, t);
  }

  /** A listing entry `name(address…` with no other '(' yields the text after
      the '(' as its second token. */
  lemma SecondTokenOfEntry(device: seq<char>, rest: seq<char>)
    requires device != [] && rest != []
    requires '(' !in device && '(' !in rest
    ensures SecondToken(device + ['('] + rest) == Some(rest)
  {
    var s := device + ['('] + rest;
    var k := |device|;
    assert forall m :: 0 <= m < |s| && m != k ==> s[m] != '(';
    SecondTokenBetween(s, k, |s|);
    assert s[k + 1..|s|] == rest;
  }

  /** The size of `baddr`: 17 characters of a Bluetooth address and a NUL. */
  const BADDR_SIZE := 18

  /** `strncpy(baddr, token, 17); baddr[17] = '\0'`, as the 18 bytes of
      baddr. */
  function StoreAddress(token: seq<char>): (baddr: seq<char>)
    ensures |baddr| == BADDR_SIZE && baddr[BADDR_SIZE - 1] == NUL
    ensures CString(baddr) == CString(token)[..Min(17, |CString(token)|)]
  {
    var c := CString(token);
    var m := Min(17, |c|);
    var baddr := c[..m] + seq(BADDR_SIZE - m, _ => NUL);
    assert baddr[..m] == c[..m];
    CStringUpToNul(baddr, m);
    baddr
  }

  lemma {:induction false} CStringUpToNul(s: seq<char>, m: nat)
    requires m < |s| && s[m] == NUL && NUL !in s[..m]
    ensures CString(s) == s[..m]
    decreases m
  {
    if m > 0 {
      assert s[0] in s[..m];
      assert s[1..][..m - 1] == s[..m][1..];
      CStringUpToNul(s[1..], m - 1);
    }
  }

  // ---------------------------------------------------------------------
  // discoverDevice
  // ---------------------------------------------------------------------

  /** The outcome of discoverDevice: 0 with the address stored, -1 when no
      line matches, or a matching line with no second token, where strncpy
      would read through a NULL pointer. */
  datatype Discovery = Found(baddr: seq<char>) | NotFound | NullToken

  /** What discoverDevice does once a line has matched. */
  function Extract(line: seq<char>): (d: Discovery)
    ensures !d.NotFound?
  {
    match SecondToken(CString(line))
    case None => NullToken
    case Some(token) => Found(StoreAddress(token))
  }

  /** The value discoverDevice returns: 0 once an address is stored, -1
      when no line matched. */
  function ReturnCode(d: Discovery): (r: int)
    requires !d.NullToken?
    ensures r == 0 <==> d.Found?
    ensures r == -1 <==> d.NotFound?
  {
    if d.Found? then 0 else -1
  }

  /** strncmp(line, name, n) != 0 for every line. */
  predicate NoneMatch(lines: seq<seq<char>>, name: seq<char>, n: nat) {
    forall i :: 0 <= i < |lines| ==> !StrNEq(lines[i], name, n)
  }

  /** Line i is the first for which strncmp(line, name, n) == 0. */
  predicate FirstMatchAt(lines: seq<seq<char>>, i: nat, name: seq<char>, n: nat) {
    i < |lines| && StrNEq(lines[i], name, n) && NoneMatch(lines[..i], name, n)
  }

  /** The loop of discoverDevice over the fgets buffers, comparing n
      characters of each against name: the first matching line decides. */
  function DiscoverLines(lines: seq<seq<char>>, name: seq<char>, n: nat): (d: Discovery)
    ensures d.NotFound? <==> NoneMatch(lines, name, n)
    ensures !d.NotFound? ==> exists i: nat :: FirstMatchAt(lines, i, name, n) && d == Extract(lines[i])
  {
    if lines == [] then NotFound
    else if StrNEq(lines[0], name, n) then
      assert lines[..0] == [];
      Extract(lines[0])
    else
      var d := DiscoverLines(lines[1..], name, n);
      assert forall i :: 1 <= i < |lines| ==> lines[i] == lines[1..][i - 1];
      if d.NotFound? then d
      else
        ghost var i: nat :| FirstMatchAt(lines[1..], i, name, n) && d == Extract(lines[1..][i]);
        assert lines[..i + 1] == [lines[0]] + lines[1..][..i];
        assert FirstMatchAt(lines, i + 1, name, n);
        d
  }

  /** `sizeof(name)` where name is a `char *`, taken as the 8 bytes of a
      pointer under the LP64 data model. */
  const POINTER_SIZE := 8

  /** discoverDevice as written, on the text the listing command prints:
      `len = sizeof(name)` compares POINTER_SIZE characters; -1 exactly when
      no line matches, otherwise the first matching line is parsed. */
  function DiscoverDevice(listing: seq<char>, name: seq<char>): (d: Discovery)
    ensures d.NotFound? <==> NoneMatch(Lines(listing), name, POINTER_SIZE)
    ensures !d.NotFound? ==>
              exists i: nat :: FirstMatchAt(Lines(listing), i, name, POINTER_SIZE) && d == Extract(Lines(listing)[i])
  {
    DiscoverLines(Lines(listing), name, POINTER_SIZE)
  }

  /** No line starts with name. */
  predicate NoneStartWith(lines: seq<seq<char>>, name: seq<char>) {
    forall i :: 0 <= i < |lines| ==> !(name <= CString(lines[i]))
  }

  /** Line i is the first that starts with name. */
  predicate FirstStartingWith(lines: seq<seq<char>>, i: nat, name: seq<char>) {
    i < |lines| && name <= CString(lines[i]) && NoneStartWith(lines[..i], name)
  }

  /** Comparing strlen(name) characters is testing that a line starts with
      name, line by line. */
  lemma MatchIsPrefix(lines: seq<seq<char>>, name: seq<char>)
    requires NUL !in name
    ensures NoneMatch(lines, name, |name|) <==> NoneStartWith(lines, name)
    ensures forall i: nat :: FirstMatchAt(lines, i, name, |name|) <==> FirstStartingWith(lines, i, name)
  {
    forall i | 0 <= i < |lines| ensures StrNEq(lines[i], name, |name|) <==> name <= CString(lines[i]) {
      PrefixMatch(lines[i], name);
    }
    forall i: nat | i < |lines| ensures NoneMatch(lines[..i], name, |name|) <==> NoneStartWith(lines[..i], name) {
      assert forall j :: 0 <= j < i ==> lines[..i][j] == lines[j];
    }
  }

  /** discoverDevice with `len = strlen(name)`: the first listing line that
      starts with name decides. */
  function DiscoverDeviceByName(listing: seq<char>, name: seq<char>): (d: Discovery)
    requires NUL !in name
    ensures d.NotFound? <==> NoneStartWith(Lines(listing), name)
    ensures !d.NotFound? ==>
              exists i: nat :: FirstStartingWith(Lines(listing), i, name) && d == Extract(Lines(listing)[i])
  {
    var ls := Lines(listing);
    MatchIsPrefix(ls, name);
    DiscoverLines(ls, name, |name|)
  }

  lemma FirstMatchUnique(lines: seq<seq<char>>, i: nat, j: nat, name: seq<char>, n: nat)
    requires FirstMatchAt(lines, i, name, n) && FirstMatchAt(lines, j, name, n)
    ensures i == j
  {
    assert forall k :: 0 <= k < i ==> lines[..i][k] == lines[k];
    assert forall k :: 0 <= k < j ==> lines[..j][k] == lines[k];
  }

  lemma FirstStartingWithUnique(lines: seq<seq<char>>, i: nat, j: nat, name: seq<char>)
    requires FirstStartingWith(lines, i, name) && FirstStartingWith(lines, j, name)
    ensures i == j
  {
    assert forall k :: 0 <= k < i ==> lines[..i][k] == lines[k];
    assert forall k :: 0 <= k < j ==> lines[..j][k] == lines[k];
  }

  /** As written, the first buffer agreeing with name on POINTER_SIZE
      characters decides the outcome. */
  lemma DiscoverDecidedBy(listing: seq<char>, name: seq<char>, i: nat)
    requires FirstMatchAt(Lines(listing), i, name, POINTER_SIZE)
    ensures DiscoverDevice(listing, name) == Extract(Lines(listing)[i])
  {
    var d := DiscoverDevice(listing, name);
    var j: nat :| FirstMatchAt(Lines(listing), j, name, POINTER_SIZE) && d == Extract(Lines(listing)[j]);
    FirstMatchUnique(Lines(listing), i, j, name, POINTER_SIZE);
  }

  /** With len = strlen(name), the first line starting with name decides
      the outcome. */
  lemma ByNameDecidedBy(listing: seq<char>, name: seq<char>, i: nat)
    requires NUL !in name && FirstStartingWith(Lines(listing), i, name)
    ensures DiscoverDeviceByName(listing, name) == Extract(Lines(listing)[i])
  {
    var d := DiscoverDeviceByName(listing, name);
    var j: nat :| FirstStartingWith(Lines(listing), j, name) && d == Extract(Lines(listing)[j]);
    FirstStartingWithUnique(Lines(listing), i, j, name);
  }

  /** The entry the listing prints for one device, `name (address)`. */
  function Entry(device: seq<char>, address: seq<char>): seq<char> {
    device + " (" + address + ")\n"
  }

  /** As written, a name longer than a pointer is compared on its first
      eight characters only, so the first device whose name shares them is
      taken, whatever the rest of its name. */
  lemma AsWrittenTakesNamesakeFirst(other: seq<char>, wanted: seq<char>)
    requires NUL !in wanted && NUL !in other
    requires POINTER_SIZE <= |wanted| && POINTER_SIZE <= |other|
    requires other[..POINTER_SIZE] == wanted[..POINTER_SIZE] && other != wanted
    ensures forall rest :: StrNEq(other + rest, wanted, POINTER_SIZE)
  {
    forall rest
      ensures StrNEq(other + rest, wanted, POINTER_SIZE)
    {
      PartialMatch(other + rest, wanted, POINTER_SIZE);
      CStringKeepsPlainPrefix(other, rest);
      assert (other + rest)[..POINTER_SIZE] == other[..POINTER_SIZE];
      assert CString(other + rest)[..POINTER_SIZE] == other[..POINTER_SIZE];
    }
  }

  lemma {:induction false} CStringKeepsPlainPrefix(a: seq<char>, b: seq<char>)
    requires NUL !in a
    ensures a <= CString(a + b)
    decreases |a|
  {
    if a != [] {
      assert (a + b)[1..] == a[1..] + b;
      CStringKeepsPlainPrefix(a[1..], b);
    }
  }

  /** As written, a name shorter than a pointer matches only a line that is
      exactly that name, so no entry line, which ends in a newline, ever
      matches. */
  lemma AsWrittenShortNameNeverMatchesEntry(name: seq<char>, device: seq<char>, address: seq<char>)
    requires NUL !in name && '\n' !in name && |name| < POINTER_SIZE
    requires NUL !in device && NUL !in address
    ensures !StrNEq(Entry(device, address), name, POINTER_SIZE)
  {
    var e := Entry(device, address);
    WholeMatch(e, name, POINTER_SIZE);
    assert NUL !in e;
    CStringOfPlain(e);
    assert e[|e| - 1] == '\n';
  }

  /** A stream text without a newline before its last character, and no
      longer than one fgets buffer, is read back as a single line. */
  lemma SingleLine(text: seq<char>)
    requires 1 <= |text| <= FGETS_MAX
    requires forall i :: 0 <= i < |text| - 1 ==> text[i] != '\n'
    ensures Lines(text) == [text]
  {
    var n := ChunkLength(text, FGETS_MAX);
    assert text[..n] == text && text[n..] == [];
  }

  /** Copying the tail `address)\n` of an entry keeps the 17-character
      address and terminates it. */
  lemma StoreEntryTail(address: seq<char>)
    requires |address| == 17 && NUL !in address
    ensures StoreAddress(address + ")\n") == address + [NUL]
  {
    var rest := address + ")\n";
    CStringOfPlain(rest);
    var baddr := StoreAddress(rest);
    assert rest[..17] == address;
    CStringOfPlain(address);
    assert CString(baddr) == address;
    assert CString(baddr) <= baddr;
    assert baddr == baddr[..17] + [baddr[17]];
  }

  /** The address stored for a listing entry `device (address)` is the
      17-character address itself, followed by NUL. */
  lemma EntryYieldsAddress(device: seq<char>, address: seq<char>)
    requires device != [] && |address| == 17
    requires '(' !in device && '(' !in address && NUL !in device && NUL !in address
    ensures Extract(Entry(device, address)) == Found(address + [NUL])
  {
    var e := Entry(device, address);
    var rest := address + ")\n";
    assert e == (device + " ") + ['('] + rest;
    SecondTokenOfEntry(device + " ", rest);
    CStringOfPlain(e);
    StoreEntryTail(address);
  }

  /** A token shorter than 17 characters is stored whole. */
  lemma StoreShortToken(token: seq<char>)
    requires |token| < 17 && NUL !in token
    ensures CString(StoreAddress(token)) == token
  {
    CStringOfPlain(token);
  }

  /** Text between the first and the second '(' is the second token. */
  lemma SecondTokenOfSplit(a: seq<char>, token: seq<char>, rest: seq<char>)
    requires a != [] && token != [] && '(' !in a && '(' !in token
    ensures SecondToken(a + ['('] + token + ['('] + rest) == Some(token)
  {
    var s := a + ['('] + token + ['('] + rest;
    var k, t := |a|, |a| + 1 + |token|;
    assert forall m :: 0 <= m < k ==> s[m] == a[m];
    assert forall m :: k < m < t ==> s[m] == token[m - k - 1];
    SecondTokenBetween(s, k, t);
    assert s[k + 1..t] == token;
  }

  /** The entry of a device named `d1(d2` splits at the '(' inside the
      name: its second token is d2 and the blank that follows the name. */
  lemma ParenNameToken(d1: seq<char>, d2: seq<char>, address: seq<char>)
    requires d1 != [] && '(' !in d1 && '(' !in d2
    requires NUL !in d1 && NUL !in d2 && NUL !in address
    ensures SecondToken(CString(Entry(d1 + "(" + d2, address))) == Some(d2 + " ")
  {
    var e := Entry(d1 + "(" + d2, address);
    assert e == d1 + ['('] + (d2 + " ") + ['('] + (address + ")\n");
    CStringOfPlain(e);
    SecondTokenOfSplit(d1, d2 + " ", address + ")\n");
  }

  /** As written, a device whose name holds a '(' (`d1(d2`) has its entry
      split at that '(': the stored "address" is the rest of the name and
      the blank before the real address, not the address. */
  lemma AsWrittenParenInName(d1: seq<char>, d2: seq<char>, address: seq<char>)
    requires d1 != [] && |d2| < 16 && |address| == 17
    requires '(' !in d1 && '(' !in d2 && '(' !in address
    requires NUL !in d1 && NUL !in d2 && NUL !in address
    ensures Extract(Entry(d1 + "(" + d2, address)) == Found(StoreAddress(d2 + " "))
    ensures CString(StoreAddress(d2 + " ")) == d2 + " "
    ensures Extract(Entry(d1 + "(" + d2, address)) != Found(address + [NUL])
  {
    ParenNameToken(d1, d2, address);
    assert NUL !in d2 + " ";
    StoreShortToken(d2 + " ");
    CStringUpToNul(address + [NUL], 17);
    assert (address + [NUL])[..17] == address;
  }

  /** The index of the last '(' in s, or -1 when there is none. */
  function LastParen(s: seq<char>): (k: int)
    ensures -1 <= k < |s|
    ensures k >= 0 ==> s[k] == '('
    ensures forall m :: k < m < |s| ==> s[m] != '('
  {
    if s == [] then -1
    else if s[|s| - 1] == '(' then |s| - 1
    else
      var k := LastParen(s[..|s| - 1]);
      assert forall m :: k < m < |s| - 1 ==> s[m] == s[..|s| - 1][m];
      k
  }

  /** The extraction the listing format calls for: the address is what
      follows the last '(' of the line, cut to 17 characters; a line with
      nothing after its last '(', or with no '(' at all, has no address. */
  function ExtractAtLastParen(line: seq<char>): (d: Discovery)
    ensures !d.NotFound?
    ensures d.Found? ==> '(' in CString(line)
  {
    var c := CString(line);
    var k := LastParen(c);
    if k < 0 || k + 1 == |c| then NullToken
    else Found(StoreAddress(c[k + 1..]))
  }

  /** Taking the text after the last '(' finds the address of every entry,
      whatever characters the device name holds. */
  lemma LastParenFindsAddress(device: seq<char>, address: seq<char>)
    requires |address| == 17 && '(' !in address
    requires NUL !in device && NUL !in address
    ensures ExtractAtLastParen(Entry(device, address)) == Found(address + [NUL])
  {
    var e := Entry(device, address);
    var k := |device| + 1;
    assert e == (device + " ") + ['('] + (address + ")\n");
    CStringOfPlain(e);
    assert forall m :: k < m < |e| ==> e[m] == (address + ")\n")[m - k - 1];
    assert e[k] == '(';
    var j := LastParen(e);
    assert j == k;
    assert e[k + 1..] == address + ")\n";
    StoreEntryTail(address);
  }



  /** An entry line is a complete line: it ends in its newline and holds no
      other. */
  lemma EntryIsCompleteLine(device: seq<char>, address: seq<char>)
    requires |Entry(device, address)| <= FGETS_MAX
    requires '\n' !in device && '\n' !in address
    ensures CompleteLine(Entry(device, address))
  {
  }

  /** An entry holds a NUL only where its name or address does. */
  lemma EntryHasNoNul(device: seq<char>, address: seq<char>)
    requires NUL !in device && NUL !in address
    ensures NUL !in Entry(device, address)
  {
    var e := Entry(device, address);
    assert forall c :: c in e ==> c in device || c in address || c in " ()\n";
  }

  lemma ConcatAround(pre: seq<seq<char>>, e: seq<char>, post: seq<seq<char>>)
    ensures Concat(pre + [e] + post) == Concat(pre) + e + Concat(post)
  {
    ConcatAppend(pre + [e], post);
    ConcatAppend(pre, [e]);
    assert [e][1..] == [];
    assert Concat([e]) == e;
  }

  /** A listing made of complete lines, one entry line among them, is read
      line by line. */
  lemma ListingLines(pre: seq<seq<char>>, e: seq<char>, post: seq<char>)
    requires forall i :: 0 <= i < |pre| ==> CompleteLine(pre[i])
    requires CompleteLine(e)
    ensures Lines(Concat(pre) + e + post) == pre + [e] + Lines(post)
  {
    LinesOfCompleteLines(pre, e + post);
    LinesAfterCompleteLine(e, post);
    AppendAssoc(Concat(pre), e, post);
    AppendAssoc(pre, [e], Lines(post));
  }

  /** A line that starts with name, after lines none of which does, is
      the first to start with it. */
  lemma FirstStartingWithAt(pre: seq<seq<char>>, e: seq<char>, rest: seq<seq<char>>, name: seq<char>)
    requires NoneStartWith(pre, name) && name <= CString(e)
    ensures FirstStartingWith(pre + [e] + rest, |pre|, name)
  {
    var ls := pre + [e] + rest;
    assert ls[|pre|] == e;
    assert ls[..|pre|] == pre;
  }

  /** With the length taken from the name, a listing whose earlier lines
      are complete and none of them starts with the name yields the address
      of the device's entry, whatever follows it. */
  lemma ByNameFindsEntry(pre: seq<seq<char>>, device: seq<char>, address: seq<char>, post: seq<char>)
    requires device != [] && |address| == 17 && |Entry(device, address)| <= FGETS_MAX
    requires '(' !in device && '(' !in address && NUL !in device && NUL !in address
    requires '\n' !in device && '\n' !in address
    requires forall i :: 0 <= i < |pre| ==> CompleteLine(pre[i])
    requires NoneStartWith(pre, device)
    ensures DiscoverDeviceByName(Concat(pre) + Entry(device, address) + post, device) == Found(address + [NUL])
    ensures ReturnCode(DiscoverDeviceByName(Concat(pre) + Entry(device, address) + post, device)) == 0
  {
    var e := Entry(device, address);
    var listing := Concat(pre) + e + post;
    assert DiscoverDeviceByName(listing, device) == Extract(e) by {
      EntryIsCompleteLine(device, address);
      ListingLines(pre, e, post);
      assert device <= CString(e) by {
        EntryHasNoNul(device, address);
        CStringOfPlain(e);
      }
      FirstStartingWithAt(pre, e, Lines(post), device);
      ByNameDecidedBy(listing, device, |pre|);
    }
    EntryYieldsAddress(device, address);
  }

  /** With len = strlen(name), a complete first line that starts with name
      decides the outcome. */
  lemma ByNameFirstLineDecides(e: seq<char>, rest: seq<char>, name: seq<char>)
    requires CompleteLine(e) && NUL !in name && name <= CString(e)
    ensures DiscoverDeviceByName(e + rest, name) == Extract(e)
  {
    LinesAfterCompleteLine(e, rest);
    var ls := Lines(e + rest);
    assert ls[0] == e && ls[..0] == [];
    assert FirstStartingWith(ls, 0, name);
    ByNameDecidedBy(e + rest, name, 0);
  }

  /** The length taken from the name still does not tell a name from a
      longer one it begins: an entry for a longer name listed first is
      taken, and its address is returned. */
  lemma ByNameTakesLongerNameFirst(d1: seq<char>, a1: seq<char>, d2: seq<char>, a2: seq<char>)
    requires d1 != [] && |a1| == 17 && |Entry(d1, a1)| <= FGETS_MAX
    requires '(' !in d1 && '(' !in a1 && NUL !in d1 && NUL !in a1
    requires '\n' !in d1 && '\n' !in a1
    requires d2 <= d1
    ensures DiscoverDeviceByName(Entry(d1, a1) + Entry(d2, a2), d2) == Found(a1 + [NUL])
  {
    var e1, e2 := Entry(d1, a1), Entry(d2, a2);
    EntryIsCompleteLine(d1, a1);
    assert d2 <= CString(e1) by {
      EntryHasNoNul(d1, a1);
      CStringOfPlain(e1);
      assert d1 <= e1;
    }
    ByNameFirstLineDecides(e1, e2, d2);
    EntryYieldsAddress(d1, a1);
  }

  /** As written, a name shorter than a pointer matches no complete line, so
      discoverDevice returns -1 on every listing made of complete lines. */
  lemma AsWrittenShortNameMatchesNoLine(ls: seq<seq<char>>, name: seq<char>)
    requires NUL !in name && '\n' !in name && |name| < POINTER_SIZE
    requires forall i :: 0 <= i < |ls| ==> CompleteLine(ls[i]) && NUL !in ls[i]
    ensures DiscoverDevice(Concat(ls), name) == NotFound
  {
    LinesOfCompleteLines(ls, []);
    assert Concat(ls) + [] == Concat(ls);
    assert ls + Lines([]) == ls;
    forall i | 0 <= i < |ls|
      ensures !StrNEq(ls[i], name, POINTER_SIZE)
    {
      WholeMatch(ls[i], name, POINTER_SIZE);
      CStringOfPlain(ls[i]);
      assert ls[i][|ls[i]| - 1] == '\n';
    }
    assert NoneMatch(Lines(Concat(ls)), name, POINTER_SIZE);
  }

  /** As written, a listing of complete lines that holds the entry of a
      device whose name is shorter than a pointer yields -1 for that name. */
  lemma AsWrittenMissesShortName(pre: seq<seq<char>>, device: seq<char>, address: seq<char>, post: seq<seq<char>>)
    requires device != [] && |device| < POINTER_SIZE && |Entry(device, address)| <= FGETS_MAX
    requires NUL !in device && NUL !in address && '\n' !in device && '\n' !in address
    requires forall i :: 0 <= i < |pre| ==> CompleteLine(pre[i]) && NUL !in pre[i]
    requires forall i :: 0 <= i < |post| ==> CompleteLine(post[i]) && NUL !in post[i]
    ensures DiscoverDevice(Concat(pre) + Entry(device, address) + Concat(post), device) == NotFound
    ensures ReturnCode(DiscoverDevice(Concat(pre) + Entry(device, address) + Concat(post), device)) == -1
  {
    var e := Entry(device, address);
    var ls := pre + [e] + post;
    assert forall i :: 0 <= i < |ls| ==> CompleteLine(ls[i]) && NUL !in ls[i] by {
      EntryIsCompleteLine(device, address);
      forall i | 0 <= i < |ls|
        ensures CompleteLine(ls[i]) && NUL !in ls[i]
      {
        if i < |pre| {
          assert ls[i] == pre[i];
        } else if i == |pre| {
          EntryHasNoNul(device, address);
          assert ls[i] == e;
        } else {
          assert ls[i] == post[i - |pre| - 1];
        }
      }
    }
    ConcatAround(pre, e, post);
    AsWrittenShortNameMatchesNoLine(ls, device);
  }

  /** As written, a complete first line that agrees with name on
      POINTER_SIZE characters decides the outcome. */
  lemma DiscoverFirstLineDecides(e: seq<char>, rest: seq<char>, name: seq<char>)
    requires CompleteLine(e) && StrNEq(e, name, POINTER_SIZE)
    ensures DiscoverDevice(e + rest, name) == Extract(e)
  {
    LinesAfterCompleteLine(e, rest);
    assert Lines(e + rest)[..0] == [];
    DiscoverDecidedBy(e + rest, name, 0);
  }

  /** As written, a device whose name holds a '(' and is at least a pointer
      long matches its own entry and gets the rest of its name, not its
      address, stored. */
  lemma AsWrittenParenNameListing(d1: seq<char>, d2: seq<char>, address: seq<char>)
    requires d1 != [] && |d2| < 16 && |address| == 17
    requires POINTER_SIZE <= |d1| + 1 + |d2| && |Entry(d1 + "(" + d2, address)| <= FGETS_MAX
    requires '(' !in d1 && '(' !in d2 && '(' !in address
    requires NUL !in d1 && NUL !in d2 && NUL !in address
    requires '\n' !in d1 && '\n' !in d2 && '\n' !in address
    ensures DiscoverDevice(Entry(d1 + "(" + d2, address), d1 + "(" + d2) == Found(StoreAddress(d2 + " "))
    ensures DiscoverDevice(Entry(d1 + "(" + d2, address), d1 + "(" + d2) != Found(address + [NUL])
  {
    var name := d1 + "(" + d2;
    var e := Entry(name, address);
    EntryIsCompleteLine(name, address);
    assert StrNEq(e, name, POINTER_SIZE) by {
      EntryHasNoNul(name, address);
      CStringOfPlain(e);
      CStringOfPlain(name);
      assert name[..POINTER_SIZE] <= CString(e);
      PartialMatch(e, name, POINTER_SIZE);
    }
    DiscoverFirstLineDecides(e, [], name);
    assert e + [] == e;
    AsWrittenParenInName(d1, d2, address);
  }
}
