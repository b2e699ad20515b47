/** Node ids as text: nodeid_dump and nodeid_undump of Lib/net_helper/net_helper-x.c. Addresses are
    opaque texts; create_node is left to the caller. */
module NodeIdText {
  import opened Wrappers

  datatype NodeText = NodeText(address: string, port: int, length: nat)

  function Digit(d: int): char
    requires 0 <= d < 10
  {
    '0' + d as char
  }

  /** %d of a non-negative number. */
  function Decimal(n: nat): string {
    if n < 10 then [Digit(n)] else Decimal(n / 10) + [Digit(n % 10)]
  }

  /** atoi: the value of the leading digits. */
  function Atoi(s: string, acc: nat): nat {
    if s != [] && '0' <= s[0] <= '9' then Atoi(s[1..], acc * 10 + (s[0] - '0') as int) else acc
  }

  /** nodeid_dump: None when the space given is too small. */
  function Dump(address: string, port: nat, space: nat): Option<string> {
    if space >= |address| + 1 + 5 then Some(address + ":" + Decimal(port) + "-") else None
  }

  /** strchr. */
  function FirstOf(s: string, c: char): (i: nat)
    ensures i <= |s| && (i < |s| ==> s[i] == c) && forall j | 0 <= j < i :: s[j] != c
  {
    if s == [] || s[0] == c then 0 else 1 + FirstOf(s[1..], c)
  }

  /** strrchr; -1 when c does not occur. */
  function LastOf(s: string, c: char): (i: int)
    ensures -1 <= i < |s| && (i >= 0 ==> s[i] == c) && forall j | i < j < |s| :: s[j] != c
  {
    if s == [] || s[|s| - 1] == c then |s| - 1 else LastOf(s[..|s| - 1], c)
  }

  /** nodeid_undump; None when a separator is missing. */
  function Undump(b: string): Option<NodeText> {
    var n := FirstOf(b, '-');
    if n == |b| then None
    else
      var socket := b[..n];
      var colon := LastOf(socket, ':');
      if colon < 0 then None
      else Some(NodeText(socket[..colon], Atoi(socket[colon + 1..], 0), n + 1))
  }

  // ---- round trip ----

  ghost predicate Digits(s: string) {
    forall i | 0 <= i < |s| :: '0' <= s[i] <= '9'
  }

  lemma {:induction false} DecimalDigits(n: nat)
    ensures Digits(Decimal(n)) && Decimal(n) != []
  {
    if n >= 10 {
      DecimalDigits(n / 10);
    }
  }

  lemma {:induction false} AtoiLast(s: string, d: char, acc: nat)
    requires Digits(s) && '0' <= d <= '9'
    ensures Atoi(s + [d], acc) == Atoi(s, acc) * 10 + (d - '0') as int
  {
    if s == [] {
      assert s + [d] == [d] && [d][1..] == [];
    } else {
      assert (s + [d])[1..] == s[1..] + [d];
      AtoiLast(s[1..], d, acc * 10 + (s[0] - '0') as int);
    }
  }

  lemma {:induction false} AtoiDecimal(n: nat)
    ensures Atoi(Decimal(n), 0) == n
  {
    if n >= 10 {
      AtoiDecimal(n / 10);
      DecimalDigits(n / 10);
      AtoiLast(Decimal(n / 10), Digit(n % 10), 0);
    } else {
      assert [Digit(n)][1..] == [];
    }
  }

  lemma {:induction false} FirstAfter(a: string, c: char, rest: string)
    requires c !in a
    ensures FirstOf(a + [c] + rest, c) == |a|
  {
    var s := a + [c] + rest;
    assert s[|a|] == c;
    assert forall j | 0 <= j < |a| :: s[j] == a[j];
  }

  lemma LastBefore(a: string, c: char, rest: string)
    requires c !in rest
    ensures LastOf(a + [c] + rest, c) == |a|
  {
    var s := a + [c] + rest;
    assert s[|a|] == c;
    assert forall j | 0 <= j < |rest| :: s[|a| + 1 + j] == rest[j];
    assert forall j | |a| < j < |s| :: s[j] == rest[j - |a| - 1];
  }

  /** Reading back a dumped node id, whatever follows it, gives the same address and port and the
      dumped length, exactly when the address has no '-' in it. Colons do no harm. */
  lemma RoundTrip(address: string, port: nat, space: nat, rest: string)
    requires Dump(address, port, space).Some?
    ensures var text := Dump(address, port, space).value;
            Undump(text + rest) == Some(NodeText(address, port, |text|)) <==> '-' !in address
  {
    var text := Dump(address, port, space).value;
    if '-' in address {
      var k :| 0 <= k < |address| && address[k] == '-';
      assert (text + rest)[k] == '-';
    } else {
      DecimalDigits(port);
      var socket := address + [':'] + Decimal(port);
      assert text + rest == socket + ['-'] + rest;
      FirstAfter(socket, '-', rest);
      assert (socket + ['-'] + rest)[..|socket|] == socket;
      ReadSocket(address, port);
    }
  }

  lemma {:induction false} DecimalSize(n: nat)
    ensures |Decimal(n)| == if n < 10 then 1 else 1 + |Decimal(n / 10)|
  {
  }

  /** A node id may be dumped into any space that the test admits exactly when its port has at most
      three digits: the text and its NUL need the address, three octets and the digits, and the test
      asks for the address and six octets. */
  lemma DumpFitsExact(address: string, port: nat)
    ensures forall space | Dump(address, port, space).Some? ::
              |Dump(address, port, space).value| == |address| + 2 + |Decimal(port)|
    ensures port < 1000 <==>
            forall space: nat | Dump(address, port, space).Some? :: |Dump(address, port, space).value| + 1 <= space
  {
    DecimalSize(port);
    DecimalSize(port / 10);
    DecimalSize(port / 100);
    DecimalSize(port / 1000);
    assert Dump(address, port, |address| + 6).Some?;
  }

  /** The text: the address, a colon, the digits of the port without leading zeros, and a dash. */
  lemma DumpText(address: string, port: nat, space: nat)
    ensures Dump(address, port, space).Some? <==> space >= |address| + 6
    ensures Dump(address, port, space).Some? ==>
              Dump(address, port, space).value == address + [':'] + Decimal(port) + ['-']
    ensures port < 10 ==> Decimal(port) == ['0' + port as char]
    ensures port >= 10 ==> Decimal(port) == Decimal(port / 10) + ['0' + (port % 10) as char]
  {
  }

  lemma ReadSocket(address: string, port: nat)
    ensures var socket := address + [':'] + Decimal(port);
            && LastOf(socket, ':') == |address|
            && socket[..|address|] == address
            && Atoi(socket[|address| + 1..], 0) == port
  {
    var socket := address + [':'] + Decimal(port);
    DecimalDigits(port);
    LastBefore(address, ':', Decimal(port));
    assert socket[|address| + 1..] == Decimal(port);
    AtoiDecimal(port);
  }
}
