/** The text of a node address and of its virtual nodes. */
module Labels {
  import opened Words

  datatype AddrKey = AddrKey(ip: uint32, port: uint16, pad: uint16)

  function Digit(d: nat): (c: char)
    requires d < 10
  {
    '0' + d as char
  }

  predicate AllDigits(s: string) {
    forall k :: 0 <= k < |s| ==> '0' <= s[k] <= '9'
  }

  /** `%d` of a non-negative integer. */
  function Decimal(n: nat): (s: string)
    ensures s != [] && AllDigits(s)
  {
    if n < 10 then [Digit(n)] else Decimal(n / 10) + [Digit(n % 10)]
  }

  function AddrToString(a: AddrKey): string {
    Decimal(a.ip) + ":" + Decimal(a.port)
  }

  function Label(a: AddrKey, i: nat): string {
    AddrToString(a) + "-" + Decimal(i)
  }

  /** Reading decimal text back. */
  function Value(s: string): nat
    requires AllDigits(s)
  {
    if s == [] then 0
    else 10 * Value(s[..|s| - 1]) + (s[|s| - 1] - '0') as nat
  }

  /** `s` is `n` in decimal notation: digits only, at least one, no leading zero. */
  predicate IsDecimal(s: string, n: nat) {
    s != [] && AllDigits(s) && (|s| > 1 ==> s[0] != '0') && Value(s) == n
  }

  lemma {:induction false} DecimalReadsBack(n: nat)
    ensures Value(Decimal(n)) == n
    ensures n > 0 ==> Decimal(n)[0] != '0'
    ensures n < 10 ==> |Decimal(n)| == 1
  {
    if n < 10 {
      assert Decimal(n)[..0] == [];
    } else {
      DecimalReadsBack(n / 10);
      assert Decimal(n)[..|Decimal(n)| - 1] == Decimal(n / 10);
    }
  }

  lemma {:induction false} LeadingDigitCounts(s: string)
    requires s != [] && AllDigits(s) && s[0] != '0'
    ensures Value(s) > 0
  {
    if |s| == 1 {
    } else {
      LeadingDigitCounts(s[..|s| - 1]);
    }
  }

  lemma OneDigit(c: char, n: nat)
    requires '0' <= c <= '9' && (c - '0') as nat == n
    ensures n < 10 && Decimal(n) == [c]
  {}

  /** Each number has one decimal notation, and `Decimal` gives it. */
  lemma {:induction false} DecimalExactly(n: nat, s: string)
    ensures s == Decimal(n) <==> IsDecimal(s, n)
    decreases n
  {
    DecimalReadsBack(n);
    if IsDecimal(s, n) {
      var front := s[..|s| - 1];
      if |s| == 1 {
        assert front == [] && Value(front) == 0;
        OneDigit(s[0], n);
        assert s == [s[0]];
      } else {
        LeadingDigitCounts(front);
        DecimalExactly(n / 10, front);
        assert s == front + [s[|s| - 1]];
      }
    }
  }

  lemma DecimalInjective(m: nat, n: nat)
    requires Decimal(m) == Decimal(n)
    ensures m == n
  {
    DecimalReadsBack(m);
    DecimalReadsBack(n);
  }

  /** `t` is IP and port in decimal, with the colon at `k` between them. */
  predicate IsAddrText(t: string, k: nat, ip: nat, port: nat) {
    k < |t| && t[k] == ':' && IsDecimal(t[..k], ip) && IsDecimal(t[k + 1..], port)
  }

  /** The text of an address: exactly the IP, a colon, and the port, in decimal. */
  lemma AddrTextExactly(a: AddrKey, t: string)
    ensures t == AddrToString(a) <==> exists k :: IsAddrText(t, k, a.ip, a.port)
  {
    hide IsDecimal, Decimal;
    var ip, port := Decimal(a.ip), Decimal(a.port);
    if t == AddrToString(a) {
      var k := |ip|;
      assert t[..k] == ip && t[k + 1..] == port;
      DecimalExactly(a.ip, ip);
      DecimalExactly(a.port, port);
      assert IsAddrText(t, k, a.ip, a.port);
    }
    if k: nat :| IsAddrText(t, k, a.ip, a.port) {
      DecimalExactly(a.ip, t[..k]);
      DecimalExactly(a.port, t[k + 1..]);
      assert t == t[..k] + ":" + t[k + 1..];
    }
  }

  /** `t` is an address text, a dash at `m`, and the index in decimal. */
  ghost predicate IsLabel(t: string, m: nat, ip: nat, port: nat, i: nat) {
    m < |t| && t[m] == '-' && (exists k :: IsAddrText(t[..m], k, ip, port)) && IsDecimal(t[m + 1..], i)
  }

  /** The text of a virtual node: exactly its address, a dash, and its index. */
  lemma LabelExactly(a: AddrKey, i: nat, t: string)
    ensures t == Label(a, i) <==> exists m :: IsLabel(t, m, a.ip, a.port, i)
  {
    hide IsDecimal, Decimal, IsAddrText, AddrToString;
    if t == Label(a, i) {
      var m := |AddrToString(a)|;
      assert t[..m] == AddrToString(a) && t[m + 1..] == Decimal(i);
      AddrTextExactly(a, t[..m]);
      DecimalExactly(i, t[m + 1..]);
      assert IsLabel(t, m, a.ip, a.port, i);
    }
    if m: nat :| IsLabel(t, m, a.ip, a.port, i) {
      AddrTextExactly(a, t[..m]);
      DecimalExactly(i, t[m + 1..]);
      assert t == t[..m] + "-" + t[m + 1..];
    }
  }

  /** A text is split in one way at a separator that its left part does not contain. */
  lemma SplitUnique(a: string, b: string, c: string, d: string, sep: char)
    requires a + [sep] + b == c + [sep] + d
    requires sep !in a && sep !in c
    ensures a == c && b == d
  {
    var whole := a + [sep] + b;
    SeparatorPosition(whole, a, b, c, d, sep);
    SeparatorPosition(whole, c, d, a, b, sep);
    assert a == whole[..|a|] && c == whole[..|c|];
    assert b == whole[|a| + 1..] && d == whole[|c| + 1..];
  }

  lemma SeparatorPosition(whole: string, a: string, b: string, c: string, d: string, sep: char)
    requires whole == a + [sep] + b == c + [sep] + d
    requires sep !in c
    ensures |c| <= |a|
  {
    assert whole[|a|] == sep;
    assert forall k :: 0 <= k < |c| ==> whole[k] == c[k];
  }

  /** The address text determines the IP and the port. The padding is not printed. */
  lemma AddrTextReadable(a: AddrKey, b: AddrKey)
    ensures AddrToString(a) == AddrToString(b) <==> a.ip == b.ip && a.port == b.port
  {
    if AddrToString(a) == AddrToString(b) {
      SplitUnique(Decimal(a.ip), Decimal(a.port), Decimal(b.ip), Decimal(b.port), ':');
      DecimalInjective(a.ip, b.ip);
      DecimalInjective(a.port, b.port);
    }
  }

  /** Two virtual-node labels are the same text exactly for the same IP, port and index. */
  lemma LabelReadable(a: AddrKey, i: nat, b: AddrKey, j: nat)
    ensures Label(a, i) == Label(b, j) <==> a.ip == b.ip && a.port == b.port && i == j
  {
    if Label(a, i) == Label(b, j) {
      assert '-' !in AddrToString(a) && '-' !in AddrToString(b);
      SplitUnique(AddrToString(a), Decimal(i), AddrToString(b), Decimal(j), '-');
      AddrTextReadable(a, b);
      DecimalInjective(i, j);
    }
    AddrTextReadable(a, b);
  }
}
