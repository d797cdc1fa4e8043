/** src/Balanceador.cpp: the registry of web servers, kept from the datagrams they send, and round-robin dispatch;
    and the message that src/WebServidor.cpp prints. */
module Balancer {

  // ---- decimal numbers, as to_string prints them and atoi reads them ----

  function DigitChar(d: nat): char
    requires d < 10
  {
    ('0' as int + d) as char
  }

  predicate IsDigit(c: char) {
    '0' <= c <= '9'
  }

  function Decimal(n: nat): (s: string)
    ensures s != "" && forall i :: 0 <= i < |s| ==> IsDigit(s[i])
  {
    if n < 10 then [DigitChar(n)] else Decimal(n / 10) + [DigitChar(n % 10)]
  }

  function ToString(n: int): string {
    if n < 0 then "-" + Decimal(-n) else Decimal(n)
  }

  /** The length of the longest prefix of digits. */
  function DigitCount(s: string): (k: nat)
    ensures k <= |s|
    ensures forall i :: 0 <= i < k ==> IsDigit(s[i])
    ensures k < |s| ==> !IsDigit(s[k])
  {
    if s == "" || !IsDigit(s[0]) then 0 else 1 + DigitCount(s[1..])
  }

  function DigitsValue(s: string): nat
    requires forall i :: 0 <= i < |s| ==> IsDigit(s[i])
  {
    if s == "" then 0
    else
      assert IsDigit(s[|s| - 1]);
      10 * DigitsValue(s[..|s| - 1]) + (s[|s| - 1] as int - '0' as int)
  }

  predicate IsSpace(c: char) {
    c == ' ' || 9 <= c as int <= 13
  }

  /** White space, a sign, and digits up to the first character that is not one. */
  function Atoi(s: string): int {
    if s == "" then 0
    else if IsSpace(s[0]) then Atoi(s[1..])
    else if s[0] == '-' then 0 - DigitsValue(s[1..][..DigitCount(s[1..])])
    else if s[0] == '+' then DigitsValue(s[1..][..DigitCount(s[1..])])
    else DigitsValue(s[..DigitCount(s)])
  }

  function Pow10(n: nat): nat {
    if n == 0 then 1 else 10 * Pow10(n - 1)
  }

  ghost predicate Digits(s: string) {
    forall i :: 0 <= i < |s| ==> IsDigit(s[i])
  }

  lemma DigitsValueStep(a: string, c: char)
    requires Digits(a) && IsDigit(c)
    ensures Digits(a + [c]) && DigitsValue(a + [c]) == 10 * DigitsValue(a) + (c as int - '0' as int)
  {
    var s := a + [c];
    assert s[..|s| - 1] == a && s[|s| - 1] == c;
  }

  /** Decimal places: a digit counts for itself, and for ten times as much with every digit behind it. */
  lemma {:induction false} DigitsValueIs(a: string, b: string)
    requires Digits(a) && Digits(b)
    ensures Digits(a + b) && DigitsValue(a + b) == DigitsValue(a) * Pow10(|b|) + DigitsValue(b)
    ensures |b| == 1 ==> DigitsValue(b) == b[0] as int - '0' as int
    decreases |b|
  {
    hide DigitsValue, Pow10;
    if b == "" {
      NoDigits(b);
      assert Pow10(0) == 1 by { Pow10Zero(); }
      assert a + b == a;
    } else {
      var n := |b| - 1;
      var front, last := b[..n], b[n];
      DigitsValueIs(a, front);
      DigitsValueStep(front, last);
      DigitsValueStep(a + front, last);
      assert b == front + [last] && a + b == a + front + [last];
      OnePlaceUp(DigitsValue(a), DigitsValue(front), Pow10(n), last as int - '0' as int);
      Pow10Step(n);
      if n == 0 {
        NoDigits(front);
      }
    }
  }

  lemma OnePlaceUp(v: int, w: int, q: int, d: int)
    ensures 10 * (v * q + w) + d == v * (10 * q) + (10 * w + d)
  {
    assert v * (10 * q) == 10 * (v * q);
  }

  lemma Pow10Step(n: nat)
    ensures Pow10(n + 1) == 10 * Pow10(n)
  {
  }

  lemma Pow10Zero()
    ensures Pow10(0) == 1
  {
  }

  lemma NoDigits(s: string)
    requires s == ""
    ensures Digits(s) && DigitsValue(s) == 0
  {
  }

  /** What atoi makes of white space, a sign, digits, and what does not go on with a digit. */
  lemma {:induction false} AtoiReads(space: string, sign: string, digits: string, rest: string)
    requires forall i :: 0 <= i < |space| ==> space[i] in " \t\n\r" || space[i] as int in {11, 12}
    requires sign in {"", "+", "-"} && Digits(digits) && digits != "" && (rest == "" || !IsDigit(rest[0]))
    ensures Atoi(space + (sign + digits + rest))
            == if sign == "-" then 0 - DigitsValue(digits) else DigitsValue(digits)
    decreases |space|
  {
    var t := sign + digits + rest;
    if space == "" {
      assert space + t == t;
      AtoiSigned(sign, digits, rest);
    } else {
      AtoiReads(space[1..], sign, digits, rest);
      assert (space + t)[1..] == space[1..] + t && (space + t)[0] == space[0];
      hide DigitsValue, DigitCount, Digits;
    }
  }

  lemma AtoiSigned(sign: string, digits: string, rest: string)
    requires sign in {"", "+", "-"} && Digits(digits) && digits != "" && (rest == "" || !IsDigit(rest[0]))
    ensures Atoi(sign + digits + rest) == if sign == "-" then 0 - DigitsValue(digits) else DigitsValue(digits)
  {
    hide DigitsValue, DigitCount;
    var t := digits + rest;
    assert sign + digits + rest == sign + t && t[..|digits|] == digits;
    DigitCountIs(t, |digits|);
    if sign == "" {
      assert sign + t == t && IsDigit(t[0]);
    } else {
      assert (sign + t)[1..] == t && (sign + t)[0] == sign[0];
    }
  }

  lemma DigitCountIs(s: string, k: nat)
    requires k <= |s| && Digits(s[..k]) && (k == |s| || !IsDigit(s[k]))
    ensures DigitCount(s) == k
  {
    assert forall i :: 0 <= i < k ==> s[i] == s[..k][i];
  }

  lemma {:induction false} DecimalValue(n: nat)
    ensures DigitsValue(Decimal(n)) == n
  {
    if n < 10 {
      assert [DigitChar(n)][..0] == "";
    } else {
      DecimalValue(n / 10);
      assert Decimal(n)[..|Decimal(n)| - 1] == Decimal(n / 10);
    }
  }

  lemma AtoiToString(n: int)
    ensures Atoi(ToString(n)) == n
  {
    var d := Decimal(if n < 0 then -n else n);
    DecimalValue(if n < 0 then -n else n);
    assert d[..DigitCount(d)] == d;
    assert ("-" + d)[1..] == d;
  }

  // ---- the message ----

  function SlashAt(s: string): (k: nat)
    ensures k <= |s|
    ensures '/' !in s[..k]
    ensures k < |s| ==> s[k] == '/'
  {
    if s == "" || s[0] == '/' then 0 else
      var k := 1 + SlashAt(s[1..]);
      assert s[..k] == [s[0]] + s[1..][..k - 1];
      k
  }

  /** What a server sends when it connects or disconnects. */
  function Message(disconnect: bool, host: string, port: int): string {
    (if disconnect then "S/D/" else "S/C/") + Comparator(host, port)
  }

  lemma MessageLooks()
    ensures Message(false, "10.1.1.1", 8080) == "S/C/10.1.1.1/8080"
    ensures Message(true, "10.1.1.1", 80) == "S/D/10.1.1.1/80"
  {
    assert Decimal(8080) == Decimal(80) + "80" && Decimal(80) == "80";
  }

  /** The part of the message that tells servers apart. */
  function Comparator(host: string, port: int): string {
    host + "/" + ToString(port)
  }

  /** Up to the slash, and past it; without a slash, both are the whole. */
  function HostOf(comparator: string): string {
    comparator[..SlashAt(comparator)]
  }

  function PortOf(comparator: string): int {
    var k := SlashAt(comparator);
    Atoi(if k == |comparator| then comparator else comparator[k + 1..])
  }

  /** Reading back a printed message gives the host and the port, for every port and every host without a slash. */
  lemma MessageRoundTrip(disconnect: bool, host: string, port: int)
    requires '/' !in host
    ensures var m := Message(disconnect, host, port);
            |m| >= 4 && HostOf(m[4..]) == host && PortOf(m[4..]) == port
  {
    var c := Comparator(host, port);
    assert Message(disconnect, host, port)[4..] == c;
    var k := SlashAt(c);
    assert c[|host|] == '/';
    assert c[..k] == host && c[k + 1..] == ToString(port);
    AtoiToString(port);
  }

  // ---- datagrams ----

  const BUFFER_SIZE := 64

  /** The listener's buffer after a receipt: `size` characters arrived, and the rest is what was there before. */
  datatype Datagram = Datagram(buffer: string, size: nat) {
    /** The buffer with the terminator written behind what arrived. */
    function Text(): (s: string)
      requires size < |buffer|
      ensures |s| == |buffer|
    {
      buffer[size := END]
    }

    predicate Connects()
      requires size < |buffer| == BUFFER_SIZE
    {
      0 < size && Text()[0] == 'S' && Text()[2] == 'C'
    }

    predicate Disconnects()
      requires size < |buffer| == BUFFER_SIZE
    {
      0 < size && Text()[0] == 'S' && Text()[2] == 'D'
    }

    /** What C asks of the listener: room for the terminator, and a terminator where a string is read. */
    predicate Readable() {
      size < |buffer| == BUFFER_SIZE && (Connects() || Disconnects() ==> END in Text()[4..])
    }

    /** The string from the fifth character on, which tells servers apart. */
    function Key(): string
      requires Readable()
    {
      CString(Text()[4..])
    }
  }

  const END := '\0'

  function CString(s: string): (r: string)
    ensures END !in r && |r| <= |s| && r == s[..|r|] && (|r| < |s| ==> s[|r|] == END)
  {
    if s == "" || s[0] == END then "" else [s[0]] + CString(s[1..])
  }

  lemma {:induction false} CStringIs(s: string, k: nat)
    requires k < |s| && s[k] == END && END !in s[..k]
    ensures CString(s) == s[..k]
  {
    if k > 0 {
      assert s[0] == s[..k][0];
      assert s[1..][..k - 1] == s[..k][1..];
      CStringIs(s[1..], k - 1);
    }
  }

  lemma ToStringTerminated(n: int)
    ensures END !in ToString(n)
  {
    var d := Decimal(if n < 0 then -n else n);
    assert forall i :: 0 <= i < |d| ==> IsDigit(d[i]);
  }

  /** A printed message that fits arrives as one: the listener tells the two kinds apart and reads the comparator,
      whatever an earlier datagram left in the buffer. */
  lemma PrintedMessageArrives(disconnect: bool, host: string, port: int, d: Datagram)
    requires END !in host && |d.buffer| == BUFFER_SIZE
    requires var m := Message(disconnect, host, port); d.size == |m| < BUFFER_SIZE && d.buffer[..|m|] == m
    ensures d.Readable() && d.Key() == Comparator(host, port)
    ensures if disconnect then d.Disconnects() && !d.Connects() else d.Connects() && !d.Disconnects()
  {
    hide CString, ToString;
    var m, c, t := Message(disconnect, host, port), Comparator(host, port), d.Text();
    assert END !in c by { ToStringTerminated(port); }
    assert m[4..] == c && t[..|m|] == m && t[|m|] == END;
    assert t[4..][..|c|] == c && t[4..][|c|] == END;
    assert t[0] == m[0] && t[2] == m[2];
    CStringIs(t[4..], |c|);
  }

  /** So servers with different hosts or ports are never taken for each other. */
  lemma ComparatorsDiffer(host: string, port: int, host': string, port': int)
    requires '/' !in host && '/' !in host'
    ensures Comparator(host, port) == Comparator(host', port') <==> host == host' && port == port'
  {
    MessageRoundTrip(false, host, port);
    MessageRoundTrip(false, host', port');
    assert Message(false, host, port)[4..] == Comparator(host, port);
    assert Message(false, host', port')[4..] == Comparator(host', port');
  }

  // ---- what the registry holds ----

  type Received = d: Datagram | d.Readable() witness Datagram(seq(BUFFER_SIZE, _ => END), 0)

  const IP_SIZE := 32

  type Field = s: string | |s| == IP_SIZE witness seq(IP_SIZE, _ => END)

  datatype Server = Server(comparator: string, ip: Field, port: int, load: int, maxLoad: int)

  /** What strncpy makes of a field when it is told to copy the host and nothing behind it. */
  function Copied(host: string, field: Field): Field {
    if |host| <= IP_SIZE then host + field[|host|..] else host[..IP_SIZE]
  }

  lemma CopiedTwice(host: string, field: Field)
    ensures Copied(host, Copied(host, field)) == Copied(host, field)
  {
  }

  /** The host is read back from the field exactly when the character behind it was a terminator before. */
  lemma HostReadBackIff(host: string, field: Field)
    requires END !in host
    ensures var ip := Copied(host, field);
            END in ip && CString(ip) == host <==> |host| < IP_SIZE && field[|host|] == END
  {
    var ip := Copied(host, field);
    var n := if |host| <= IP_SIZE then |host| else IP_SIZE;
    assert ip[..n] == host[..n];
    if |host| < IP_SIZE {
      assert host[..n] == host && ip[n] == field[n];
      if field[n] == END {
        CStringIs(ip, n);
      }
    } else {
      assert ip == ip[..n];
    }
  }

  /** A digit that was left behind the host is read as part of the address. */
  lemma HostNotReadBack()
    ensures CString(Copied("10.1.1.1", seq(IP_SIZE, i => if i == 9 then END else '7'))) == "10.1.1.17"
  {
    CStringIs(Copied("10.1.1.1", seq(IP_SIZE, i => if i == 9 then END else '7')), 9);
  }

  /** Whether the last message from this server said that it connects. */
  ghost predicate Connected(messages: seq<Received>, comparator: string) {
    if messages == [] then false
    else
      var m := messages[|messages| - 1];
      if m.Connects() && m.Key() == comparator then true
      else if m.Disconnects() && m.Key() == comparator then false
      else Connected(messages[..|messages| - 1], comparator)
  }

  /** The message says of this server that it connects or disconnects. */
  ghost predicate About(m: Received, comparator: string) {
    (m.Connects() || m.Disconnects()) && m.Key() == comparator
  }

  ghost predicate ConnectsLast(messages: seq<Received>, i: nat, comparator: string) {
    && i < |messages| && messages[i].Connects() && messages[i].Key() == comparator
    && forall j :: i < j < |messages| ==> !About(messages[j], comparator)
  }

  /** There is a message in which it connects, and none about it since. */
  lemma {:induction false} ConnectedIff(messages: seq<Received>, comparator: string)
    ensures Connected(messages, comparator) <==> exists i: nat :: ConnectsLast(messages, i, comparator)
    decreases |messages|
  {
    NoLaterMessage(messages, comparator);
    if messages != [] {
      var n := |messages| - 1;
      ConnectedIff(messages[..n], comparator);
      forall i: nat {
        LastOfMore(messages, i, comparator);
      }
      hide ConnectsLast;
      if About(messages[n], comparator) {
        assert ConnectsLast(messages, n, comparator) <==> messages[n].Connects();
        assert forall i: nat :: i < n ==> !ConnectsLast(messages, i, comparator);
      } else {
        assert !ConnectsLast(messages, n, comparator);
        if i: nat :| ConnectsLast(messages[..n], i, comparator) {
          NoLaterMessage(messages[..n], comparator);
          assert ConnectsLast(messages, i, comparator);
        }
      }
    }
  }

  lemma NoLaterMessage(messages: seq<Received>, comparator: string)
    ensures forall i: nat :: i >= |messages| ==> !ConnectsLast(messages, i, comparator)
  {
  }

  lemma LastOfMore(messages: seq<Received>, i: nat, comparator: string)
    requires messages != []
    ensures var n := |messages| - 1;
            && (i < n ==> (ConnectsLast(messages, i, comparator)
                           <==> ConnectsLast(messages[..n], i, comparator) && !About(messages[n], comparator)))
            && (i == n ==> (ConnectsLast(messages, i, comparator)
                            <==> messages[n].Connects() && messages[n].Key() == comparator))
  {
    hide About, Datagram.Connects, Datagram.Disconnects, Datagram.Key;
    var n := |messages| - 1;
    if i < n {
      assert messages[..n][i] == messages[i];
      assert forall j :: i < j < n ==> messages[..n][j] == messages[j];
    }
  }

  ghost function Comparators(servers: seq<Server>): (s: seq<string>)
    ensures |s| == |servers|
  {
    seq(|servers|, i requires 0 <= i < |servers| => servers[i].comparator)
  }

  ghost predicate Distinct(keys: seq<string>) {
    forall i, j :: 0 <= i < j < |keys| ==> keys[i] != keys[j]
  }

  /** No server twice, and exactly those whose last message was to connect. */
  ghost predicate LastMessageWins(keys: seq<string>, messages: seq<Received>) {
    Distinct(keys) && forall c :: c in keys <==> Connected(messages, c)
  }

  /** Every server has the port it gave, and the host it gave at the front of its field. */
  ghost predicate Addressed(servers: seq<Server>) {
    forall i :: 0 <= i < |servers| ==>
      && END !in servers[i].comparator
      && servers[i].ip == Copied(HostOf(servers[i].comparator), servers[i].ip)
      && servers[i].port == PortOf(servers[i].comparator)
  }

  lemma ComparatorsOf(servers: seq<Server>, s: Server, k: int)
    ensures Comparators(servers + [s]) == Comparators(servers) + [s.comparator]
    ensures 0 <= k < |servers| ==> Comparators(servers[..k] + servers[k + 1..]) == Without(Comparators(servers), k)
  {
  }

  ghost function Without(keys: seq<string>, k: nat): seq<string>
    requires k < |keys|
  {
    keys[..k] + keys[k + 1..]
  }

  lemma WithoutMembers(keys: seq<string>, k: nat)
    requires Distinct(keys) && k < |keys|
    ensures Distinct(Without(keys, k)) && forall c :: c in Without(keys, k) <==> c in keys && c != keys[k]
  {
    var rest := Without(keys, k);
    assert forall i :: 0 <= i < |rest| ==> rest[i] == keys[if i < k then i else i + 1];
    assert forall i :: 0 <= i < |keys| && i != k ==> keys[i] == rest[if i < k then i else i - 1];
  }

  lemma LastMessage(messages: seq<Received>, m: Received, c: string)
    ensures Connected(messages + [m], c) ==
              if m.Connects() && m.Key() == c then true
              else if m.Disconnects() && m.Key() == c then false
              else Connected(messages, c)
  {
    assert (messages + [m])[..|messages|] == messages;
  }

  lemma ConnectKeepsLast(keys: seq<string>, messages: seq<Received>, m: Received)
    requires LastMessageWins(keys, messages) && m.Connects()
    ensures LastMessageWins(if m.Key() in keys then keys else keys + [m.Key()], messages + [m])
  {
    hide Connected;
    forall c {
      LastMessage(messages, m, c);
    }
  }

  lemma DisconnectKeepsLast(keys: seq<string>, messages: seq<Received>, m: Received, k: int)
    requires LastMessageWins(keys, messages) && m.Disconnects()
    requires if m.Key() in keys then 0 <= k < |keys| && keys[k] == m.Key() else k == -1
    ensures LastMessageWins(if k < 0 then keys else Without(keys, k), messages + [m])
  {
    hide Connected, Without;
    if k >= 0 {
      WithoutMembers(keys, k);
    }
    forall c {
      LastMessage(messages, m, c);
    }
  }

  lemma OtherKeepsLast(keys: seq<string>, messages: seq<Received>, m: Received)
    requires LastMessageWins(keys, messages) && !m.Connects() && !m.Disconnects()
    ensures LastMessageWins(keys, messages + [m])
  {
    hide Connected;
    forall c {
      LastMessage(messages, m, c);
    }
  }

  // ---- round robin ----

  /** The comparison is unsigned, so a negative index counts as too large. */
  function Successor(i: int, n: int): int {
    if i + 1 < 0 || i + 1 >= n then 0 else i + 1
  }

  /** The servers that k dispatches choose, starting with index i. */
  function Chosen(i: int, n: int, k: nat): (s: seq<int>)
    ensures |s| == k
    decreases k
  {
    if k == 0 then [] else [i] + Chosen(Successor(i, n), n, k - 1)
  }

  lemma ChosenInTurn(done: seq<int>, i: int, n: int, k: nat)
    ensures done + Chosen(i, n, k) == if k == 0 then done else done + [i] + Chosen(Successor(i, n), n, k - 1)
  {
  }

  lemma FirstChosen(i: nat, n: nat, k: nat, s: nat)
    requires i < n && 0 < k
    ensures multiset(Chosen(i, n, k))[s] == multiset(Chosen(Successor(i, n), n, k - 1))[s] + if i == s then 1 else 0
  {
    assert multiset(Chosen(i, n, k)) == multiset{i} + multiset(Chosen(Successor(i, n), n, k - 1));
  }

  /** A server that is d places ahead has its share of k dispatches. */
  ghost predicate Share(n: nat, c: nat, k: nat, d: nat) {
    n * c <= k + n - 1 - d < n * c + n
  }

  lemma ShareAfterFirst(n: nat, c: nat, k: nat)
    requires 0 < n && Share(n, c, k, n - 1)
    ensures Share(n, c + 1, k + 1, 0)
  {
    assert n * (c + 1) == n * c + n;
  }

  lemma {:induction false} ChosenCount(i: nat, n: nat, k: nat, s: nat)
    requires i < n && s < n
    ensures Share(n, multiset(Chosen(i, n, k))[s], k, if s < i then s - i + n else s - i)
    decreases k
  {
    if k == 0 {
      assert n * 0 == 0;
    } else {
      FirstChosen(i, n, k, s);
      ChosenCount(Successor(i, n), n, k - 1, s);
      if i == s {
        ShareAfterFirst(n, multiset(Chosen(Successor(i, n), n, k - 1))[s], k - 1);
      }
    }
  }

  /** Each of n servers was chosen |chosen|/n times, rounded down or up. */
  ghost predicate Even(chosen: seq<int>, n: nat) {
    0 < n && forall s :: 0 <= s < n ==>
      multiset(chosen)[s] == |chosen| / n || multiset(chosen)[s] == (|chosen| + n - 1) / n
  }

  /** Round robin is fair, wherever it starts and for however long it runs. */
  lemma RoundRobinIsFair(i: nat, n: nat, k: nat)
    requires i < n
    ensures Even(Chosen(i, n, k), n)
  {
    forall s | 0 <= s < n
      ensures var c := multiset(Chosen(i, n, k))[s]; c == k / n || c == (k + n - 1) / n
    {
      ChosenCount(i, n, k, s);
      QuotientBetween(k, n, multiset(Chosen(i, n, k))[s]);
    }
  }

  lemma QuotientBetween(k: nat, n: nat, c: nat)
    requires 0 < n && n * c <= k + n - 1 && k < n * c + n
    ensures c == k / n || c == (k + n - 1) / n
  {
    if n * c <= k {
      assert k / n == c by { QuotientIs(k, n, c); }
    } else {
      assert (k + n - 1) / n == c by { QuotientIs(k + n - 1, n, c); }
    }
  }

  lemma QuotientIs(k: nat, n: nat, c: nat)
    requires 0 < n && n * c <= k < n * c + n
    ensures k / n == c
  {
    var q := k / n;
    assert k == n * q + k % n;
    assert q < c ==> n * (q + 1) <= n * c;
    assert c < q ==> n * (c + 1) <= n * q;
  }

  // ---- the balancer ----

  class Balanceador {
    var servidores: seq<Server>
    var servidoresActuales: int
    var roundRobinActual: int
    ghost var messages: seq<Received>

    /** The registry is what the messages received so far make it. */
    ghost predicate Valid()
      reads this`servidores, this`servidoresActuales, this`messages
    {
      && LastMessageWins(Comparators(servidores), messages)
      && Addressed(servidores)
      && servidoresActuales == |servidores|
    }

    ghost predicate IndexInRange()
      reads this`servidores, this`roundRobinActual
    {
      0 <= roundRobinActual < |servidores|
    }

    /** The original leaves the round-robin index at whatever was in memory. */
    constructor (roundRobinActual: int)
      ensures Valid() && servidores == [] && messages == [] && this.roundRobinActual == roundRobinActual
    {
      servidores, servidoresActuales := [], 0;
      this.roundRobinActual := roundRobinActual;
      messages := [];
    }

    method BuscarServidor(hilera: string) returns (posicion: int)
      ensures if hilera in Comparators(servidores) then 0 <= posicion < |servidores|
                && servidores[posicion].comparator == Comparators(servidores)[posicion] == hilera
              else posicion == -1
    {
      for i := 0 to |servidores|
        invariant forall j :: 0 <= j < i ==> Comparators(servidores)[j] != hilera
      {
        if servidores[i].comparator == hilera {
          assert Comparators(servidores)[i] == hilera;
          return i;
        }
      }
      return -1;
    }

    /** `campo` is what the new record's field for the address held: the record is not initialised. */
    method AgregarServidor(m: Received, campo: Field, cargaMaxima: int)
      requires Valid() && m.Connects()
      modifies this`servidores, this`servidoresActuales, this`messages
      ensures Valid() && messages == old(messages) + [m]
      ensures if m.Key() in Comparators(old(servidores)) then servidores == old(servidores)
              else servidores == old(servidores)
                     + [Server(m.Key(), Copied(HostOf(m.Key()), campo), PortOf(m.Key()), 0, cargaMaxima)]
    {
      hide LastMessageWins, Comparators, HostOf, PortOf, Connected, Copied;
      CopiedTwice(HostOf(m.Key()), campo);
      var ip := m.Key();
      ConnectKeepsLast(Comparators(servidores), messages, m);
      messages := messages + [m];
      var posicion := BuscarServidor(ip);
      if posicion == -1 {
        var s := Server(ip, Copied(HostOf(ip), campo), PortOf(ip), 0, cargaMaxima);
        ComparatorsOf(servidores, s, 0);
        servidores := servidores + [s];
        servidoresActuales := servidoresActuales + 1;
      }
    }

    /** Removing a server does not touch the round-robin index, which stays in range just when it was not the last
        one. */
    method EliminarServidor(m: Received)
      requires Valid() && m.Disconnects()
      modifies this`servidores, this`servidoresActuales, this`messages
      ensures Valid() && messages == old(messages) + [m]
      ensures if m.Key() !in Comparators(old(servidores)) then servidores == old(servidores)
              else exists k :: 0 <= k < |old(servidores)| && old(servidores)[k].comparator == m.Key()
                            && servidores == old(servidores)[..k] + old(servidores)[k + 1..]
      ensures m.Key() in Comparators(old(servidores)) && old(IndexInRange()) ==>
                (IndexInRange() <==> roundRobinActual < |old(servidores)| - 1)
    {
      hide LastMessageWins, Comparators, HostOf, PortOf, Connected;
      var posicion := BuscarServidor(m.Key());
      DisconnectKeepsLast(Comparators(servidores), messages, m, posicion);
      messages := messages + [m];
      if posicion >= 0 {
        ComparatorsOf(servidores, servidores[posicion], posicion);
        servidores := servidores[..posicion] + servidores[posicion + 1..];
        servidoresActuales := servidoresActuales - 1;
      }
    }

    /** One turn of hilo_Escuchador_Servidores. */
    method Recibir(m: Received, campo: Field, cargaMaxima: int)
      requires Valid()
      modifies this`servidores, this`servidoresActuales, this`messages
      ensures Valid() && messages == old(messages) + [m]
    {
      if 0 < m.size && m.Text()[0] == 'S' && m.Text()[2] == 'C' {
        AgregarServidor(m, campo, cargaMaxima);
      } else if 0 < m.size && m.Text()[0] == 'S' && m.Text()[2] == 'D' {
        EliminarServidor(m);
      } else {
        OtherKeepsLast(Comparators(servidores), messages, m);
        messages := messages + [m];
      }
    }

    /** The whole loop of hilo_Escuchador_Servidores: whatever arrives, in whatever order, the registry holds exactly
        the servers whose last message was to connect, each once. */
    method Escuchar(ms: seq<Received>, campos: seq<Field>, cargas: seq<int>)
      requires Valid() && messages == [] && |campos| == |cargas| == |ms|
      modifies this`servidores, this`servidoresActuales, this`messages
      ensures Distinct(Comparators(servidores)) && servidoresActuales == |servidores| && Addressed(servidores)
      ensures forall c :: c in Comparators(servidores) <==> Connected(ms, c)
    {
      for i := 0 to |ms|
        invariant Valid() && messages == ms[..i]
      {
        Recibir(ms[i], campos[i], cargas[i]);
        assert ms[..i + 1] == ms[..i] + [ms[i]];
      }
      assert ms[..|ms|] == ms;
    }

    /** The address that hilo_Cliente connects to: the field up to its terminator, which has to be there. */
    method Direccion(indice: int) returns (ip: string)
      requires Valid() && 0 <= indice < |servidores| && END in servidores[indice].ip
      ensures var host := HostOf(servidores[indice].comparator);
              && (|host| < IP_SIZE ==> host <= ip)
              && (ip == host <==> |host| < IP_SIZE && servidores[indice].ip[|host|] == END)
    {
      HostReadBackIff(HostOf(servidores[indice].comparator), servidores[indice].ip);
      ip := CString(servidores[indice].ip);
    }

    /** The round-robin block of hilo_Cliente; a client that finds no server is turned away. */
    method Elegir() returns (indice: int)
      requires servidores != []
      modifies this`roundRobinActual
      ensures indice == old(roundRobinActual) && roundRobinActual == Successor(indice, |servidores|)
      ensures IndexInRange()
    {
      var value := roundRobinActual;
      indice := value;
      value := value + 1;
      if value < 0 || value >= |servidores| {
        value := 0;
      }
      roundRobinActual := value;
    }

    /** `clientes` clients one after the other, with the registry unchanged meanwhile. */
    method Repartir(clientes: nat) returns (elegidos: seq<int>)
      requires IndexInRange()
      modifies this`roundRobinActual
      ensures IndexInRange() && |elegidos| == clientes && Even(elegidos, |servidores|)
    {
      hide Even, Chosen;
      elegidos := [];
      RoundRobinIsFair(roundRobinActual, |servidores|, clientes);
      for i := 0 to clientes
        invariant IndexInRange()
        invariant Chosen(old(roundRobinActual), |servidores|, clientes)
                  == elegidos + Chosen(roundRobinActual, |servidores|, clientes - i)
      {
        ChosenInTurn(elegidos, roundRobinActual, |servidores|, clientes - i);
        var indice := Elegir();
        elegidos := elegidos + [indice];
      }
      ChosenInTurn(elegidos, roundRobinActual, |servidores|, 0);
    }
  }

  /** A buffer holding one printed message and nothing else. */
  function Arrived(m: string): (d: Datagram)
    requires |m| < BUFFER_SIZE
    ensures |d.buffer| == BUFFER_SIZE && d.size == |m| && d.buffer[..|m|] == m
  {
    Datagram(m + seq(BUFFER_SIZE - |m|, _ => END), |m|)
  }

  /** Two servers connect, one client is served by the first and the second server disconnects: the next client is
      given a server that is not there. */
  method ServerGone(first: Received, second: Received, gone: Received) returns (b: Balanceador, indice: int)
    requires first.Connects() && second.Connects() && gone.Disconnects()
    requires first.Key() != second.Key() && gone.Key() == second.Key()
    ensures |b.servidores| == 1 && indice == 1
  {
    hide LastMessageWins, Connected, Addressed, Datagram.Key, Datagram.Connects, Datagram.Disconnects, HostOf, PortOf;
    b := new Balanceador(0);
    var campo: Field := seq(IP_SIZE, _ => END);
    b.AgregarServidor(first, campo, 5);
    b.AgregarServidor(second, campo, 5);
    assert Comparators(b.servidores) == [first.Key(), second.Key()];
    var _ := b.Elegir();
    assert gone.Key() == Comparators(b.servidores)[1];
    b.EliminarServidor(gone);
    indice := b.Elegir();
  }

  lemma ShortMessage(disconnect: bool, host: string)
    requires |host| == 1
    ensures |Message(disconnect, host, 80)| == 8
  {
    assert |Decimal(80)| == 2;
  }

  /** Three such datagrams. */
  lemma ServerGoneHappens()
    ensures var first, second, gone := Message(false, "a", 80), Message(false, "b", 80), Message(true, "b", 80);
            && |first| == |second| == |gone| == 8
            && var f, s, g := Arrived(first), Arrived(second), Arrived(gone);
               && f.Readable() && f.Connects() && s.Readable() && s.Connects() && g.Readable() && g.Disconnects()
               && f.Key() != s.Key() && g.Key() == s.Key()
  {
    hide Message, Comparator, Datagram.Key, Datagram.Connects, Datagram.Disconnects, Datagram.Readable, Arrived;
    ShortMessage(false, "a");
    ShortMessage(false, "b");
    ShortMessage(true, "b");
    PrintedMessageArrives(false, "a", 80, Arrived(Message(false, "a", 80)));
    PrintedMessageArrives(false, "b", 80, Arrived(Message(false, "b", 80)));
    PrintedMessageArrives(true, "b", 80, Arrived(Message(true, "b", 80)));
    ComparatorsDiffer("a", 80, "b", 80);
  }
}
