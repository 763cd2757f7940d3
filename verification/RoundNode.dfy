/** The node of node.c: its setters recompute its identifier; and the copy of remote_node.c. */
module RoundNode {
  import opened Sequences
  import opened CStrings
  import opened Nodes

  const DEFAULT_CLUSTER_NAME := "round"
  const SEED_LENGTH := 31

  function Digits(n: nat): string {
    if n < 10 then [('0' as int + n) as char] else Digits(n / 10) + Digits(n % 10)
  }

  /** n as printed by %d */
  function Decimal(n: int): string {
    if n < 0 then "-" + Digits(-n) else Digits(n)
  }

  /** The text updateid digests: "address:port", with an absent address printed as the C
      library prints it, cut to the seed buffer. */
  function Seed(addr: Option<string>, port: int): string {
    var text := addr.GetOr("(null)") + ":" + Decimal(port);
    if |text| <= SEED_LENGTH then text else text[..SEED_LENGTH]
  }

  /** The identifier is absent until the address or port is set, and is theirs from then on. */
  predicate Tracked(d: NodeData, sha: string -> string) {
    if d.digest.None? then d.addr.None? && d.port == 0
    else d.digest.value == sha(Seed(d.addr, d.port))
  }

  /** The data of a copy: an empty address, a port that is not positive and an empty cluster name are not carried
      over. */
  function CopyData(d: NodeData, sha: string -> string): NodeData {
    var addr := if RoundStrLen(d.addr) <= 0 then None else d.addr;
    var port := if d.port <= 0 then 0 else d.port;
    NodeData(addr, port,
             if addr.None? && port == 0 then None else Some(sha(Seed(addr, port))),
             if RoundStrLen(d.clusterName) <= 0 then Some(DEFAULT_CLUSTER_NAME) else d.clusterName)
  }

  /** A node that others can reach: it has an address, a port and a cluster. */
  predicate Addressable(d: NodeData) {
    RoundStrLen(d.addr) > 0 && d.port > 0 && RoundStrLen(d.clusterName) > 0
  }

  class Node {
    const sha: string -> string
    var addr: Option<string>
    var port: int
    var digest: Option<string>
    var clusterName: Option<string>

    ghost function Data(): NodeData
      reads this
    {
      NodeData(addr, port, digest, clusterName)
    }

    ghost predicate Valid()
      reads this
    {
      Tracked(Data(), sha)
    }

    /** round_node_init */
    constructor (sha: string -> string)
      ensures this.sha == sha && Valid() && Data() == NodeData(None, 0, None, Some(DEFAULT_CLUSTER_NAME))
    {
      this.sha := sha;
      addr, port, digest, clusterName := None, 0, None, Some(DEFAULT_CLUSTER_NAME);
    }

    /** round_node_updateid */
    method UpdateId()
      modifies this
      ensures Data() == old(Data()).(digest := Some(sha(Seed(addr, port))))
      ensures Valid()
    {
      digest := Some(sha(Seed(addr, port)));
    }

    /** round_node_setaddress */
    method SetAddress(newAddr: Option<string>) returns (isSet: bool)
      requires Valid()
      modifies this
      ensures Valid() && isSet == newAddr.Some?
      ensures Data() == if isSet then old(Data()).(addr := newAddr, digest := Some(sha(Seed(newAddr, port))))
                        else old(Data())
    {
      if newAddr.None? {
        return false;
      }
      addr := newAddr;
      UpdateId();
      return true;
    }

    /** round_node_setport */
    method SetPort(newPort: int)
      modifies this
      ensures Valid()
      ensures Data() == old(Data()).(port := newPort, digest := Some(sha(Seed(addr, newPort))))
    {
      port := newPort;
      UpdateId();
    }

    /** round_node_setclustername */
    method SetClusterName(cluster: Option<string>) returns (isSet: bool)
      requires Valid()
      modifies this
      ensures Valid() && isSet == cluster.Some?
      ensures Data() == if isSet then old(Data()).(clusterName := cluster) else old(Data())
    {
      if cluster.None? {
        return false;
      }
      clusterName := cluster;
      return true;
    }
  }

  /** round_remote_node_copy */
  method Copy(node: Node) returns (newNode: Node)
    ensures fresh(newNode) && newNode.sha == node.sha && newNode.Valid()
    ensures newNode.Data() == CopyData(node.Data(), node.sha)
  {
    newNode := new Node(node.sha);
    if 0 < RoundStrLen(node.addr) {
      var _ := newNode.SetAddress(node.addr);
    }
    if 0 < node.port {
      newNode.SetPort(node.port);
    }
    if 0 < RoundStrLen(node.clusterName) {
      var _ := newNode.SetClusterName(node.clusterName);
    }
  }

  /** The digest tells the node's seed from the seed of its copy. */
  ghost predicate TellsCopy(d: NodeData, sha: string -> string) {
    var seed, copySeed := Seed(d.addr, d.port), Seed(CopyData(d, sha).addr, CopyData(d, sha).port);
    sha(seed) == sha(copySeed) ==> seed == copySeed
  }

  /** Unless two seeds collide, a copy has the identifier of its original exactly when the original
      has no identifier yet, or an address with a port that is not negative or cut off from the
      seed, or no address and a positive port. */
  lemma CopyKeepsId(d: NodeData, sha: string -> string)
    requires Tracked(d, sha) && TellsCopy(d, sha)
    ensures CopyData(d, sha).digest == d.digest <==>
            || d.digest.None?
            || (RoundStrLen(d.addr) > 0 && (d.port >= 0 || |d.addr.value| + 1 >= SEED_LENGTH))
            || (d.addr.None? && d.port > 0)
  {
    if d.digest.Some? && d.addr.Some? {
      if d.addr.value == [] {
        SeedAt(d.addr, d.port, 0);
        SeedAt(None, d.port, 0);
      } else if d.port < 0 {
        NegativePortSeed(d.addr.value, d.port);
      }
    }
  }

  lemma {:induction false} DigitsStart(n: nat)
    ensures Digits(n) != [] && Digits(n)[0] != '-'
  {
    if n >= 10 {
      DigitsStart(n / 10);
    }
  }

  ghost predicate IsDigit(c: char) {
    '0' <= c <= '9'
  }

  /** The number that a text of digits denotes. */
  ghost function Denoted(text: string): int {
    if text == [] then 0
    else 10 * Denoted(text[..|text| - 1]) + (text[|text| - 1] as int - '0' as int)
  }

  /** The decimal text of a number consists of digits and denotes the number. */
  lemma {:induction false} DigitsDenote(n: nat)
    ensures Denoted(Digits(n)) == n && forall i :: 0 <= i < |Digits(n)| ==> IsDigit(Digits(n)[i])
  {
    var text := Digits(n);
    if n >= 10 {
      DigitsDenote(n / 10);
      DigitsDenote(n % 10);
      assert text[..|text| - 1] == Digits(n / 10) && text[|text| - 1] == Digits(n % 10)[0];
    } else {
      assert text[..0] == [];
    }
  }

  /** Different numbers are printed differently, and a colon is in no number. */
  lemma DecimalTells(m: int, n: int)
    ensures Decimal(m) == Decimal(n) <==> m == n
    ensures forall i :: 0 <= i < |Decimal(n)| ==> Decimal(n)[i] != ':'
  {
    DigitsDenote(if m < 0 then -m else m);
    DigitsDenote(if n < 0 then -n else n);
    DigitsStart(if m < 0 then -m else m);
    DigitsStart(if n < 0 then -n else n);
    assert m < 0 ==> Decimal(m)[0] == '-' && Decimal(m)[1..] == Digits(-m);
    assert n < 0 ==> Decimal(n)[0] == '-' && Decimal(n)[1..] == Digits(-n);
  }

  /** Seeds that fit the buffer of 31 characters are equal exactly for the same address text and port. */
  lemma SeedTells(a: Option<string>, m: int, b: Option<string>, n: int)
    requires |a.GetOr("(null)") + ":" + Decimal(m)| <= 31 && |b.GetOr("(null)") + ":" + Decimal(n)| <= 31
    ensures Seed(a, m) == Seed(b, n) <==> a.GetOr("(null)") == b.GetOr("(null)") && m == n
  {
    var x, y := a.GetOr("(null)"), b.GetOr("(null)");
    DecimalTells(m, n);
    DecimalTells(n, m);
    if Seed(a, m) == Seed(b, n) {
      hide Decimal, Digits;
      var text := x + ":" + Decimal(m);
      assert text == y + ":" + Decimal(n);
      ColonAt(x, Decimal(m), y, Decimal(n));
      assert text[..|x|] == x && text[..|y|] == y;
      assert text[|x| + 1..] == Decimal(m) && text[|y| + 1..] == Decimal(n);
    }
  }

  /** The last colon shows where the address ends. */
  lemma ColonAt(x: string, p: string, y: string, q: string)
    requires x + ":" + p == y + ":" + q
    requires (forall i :: 0 <= i < |p| ==> p[i] != ':') && (forall i :: 0 <= i < |q| ==> q[i] != ':')
    ensures |x| == |y|
  {
    var text := x + ":" + p;
    assert text[|x|] == ':' && text[|y|] == ':';
  }

  /** The port does not show in the seed at all exactly when the address alone fills the buffer, up to the colon. */
  lemma SeedHidesPort(addr: string)
    ensures (forall m, n :: Seed(Some(addr), m) == Seed(Some(addr), n)) <==> |addr| >= 30
  {
    if |addr| >= 30 {
      forall m, n
        ensures Seed(Some(addr), m) == Seed(Some(addr), n)
      {
        assert (addr + ":" + Decimal(m))[..31] == (addr + ":")[..31] == (addr + ":" + Decimal(n))[..31];
        DigitsStart(if m < 0 then -m else m);
        DigitsStart(if n < 0 then -n else n);
      }
    } else {
      assert Seed(Some(addr), 1)[|addr| + 1] == '1' && Seed(Some(addr), 2)[|addr| + 1] == '2';
    }
  }

  lemma SeedAt(addr: Option<string>, port: int, i: nat)
    requires i < SEED_LENGTH && i <= |addr.GetOr("(null)")|
    ensures i < |Seed(addr, port)| && Seed(addr, port)[i] == (addr.GetOr("(null)") + ":")[i]
  {
  }

  /** The sign of a negative port is seen in the seed unless the address fills it. */
  lemma NegativePortSeed(addr: string, port: int)
    requires port < 0
    ensures Seed(Some(addr), port) == Seed(Some(addr), 0) <==> |addr| + 1 >= SEED_LENGTH
  {
    DigitsStart(-port);
    var text, text0 := addr + ":" + Decimal(port), addr + ":" + Decimal(0);
    if |addr| + 1 >= SEED_LENGTH {
      assert text[..SEED_LENGTH] == (addr + ":")[..SEED_LENGTH] == text0[..SEED_LENGTH];
    } else {
      assert Seed(Some(addr), port)[|addr| + 1] == '-' && Seed(Some(addr), 0)[|addr| + 1] == '0';
    }
  }

  /** Inputs whose copies have another identifier, under any digest that tells the seeds apart: an
      empty address with port 80 (":80" against "(null):80"), and the address "a" with port -1
      ("a:-1" against "a:0"). */
  lemma CopiesWithOtherId(sha: string -> string)
    ensures Seed(Some(""), 80) == ":80" && Seed(None, 80) == "(null):80"
    ensures Seed(Some("a"), -1) == "a:-1" && Seed(Some("a"), 0) == "a:0"
    ensures var d := NodeData(Some(""), 80, Some(sha(":80")), None);
            Tracked(d, sha) && (sha(":80") != sha("(null):80") ==> CopyData(d, sha).digest != d.digest)
    ensures var d := NodeData(Some("a"), -1, Some(sha("a:-1")), None);
            Tracked(d, sha) && (sha("a:-1") != sha("a:0") ==> CopyData(d, sha).digest != d.digest)
  {
    assert Digits(80) == Digits(8) + Digits(0) == "80";
    assert "" + ":" + "80" == ":80" && "a" + ":" + "-1" == "a:-1" && "a" + ":" + "0" == "a:0";
    assert "(null)" + ":" + "80" == "(null):80";
    assert "-" + Digits(1) == "-1";
  }

  /** What a copy has: each part that is there in earnest, the default cluster otherwise, and the
      identifier of its own address and port, which is absent when it has neither. */
  lemma CopyParts(d: NodeData, sha: string -> string)
    ensures var c := CopyData(d, sha);
            && (if d.addr.Some? && d.addr.value != "" then c.addr == d.addr else c.addr == None)
            && (if d.port > 0 then c.port == d.port else c.port == 0)
            && (if d.clusterName.Some? && d.clusterName.value != "" then c.clusterName == d.clusterName
                else c.clusterName == Some("round"))
            && Tracked(c, sha) && (c.digest.Some? <==> c.addr.Some? || c.port > 0)
  {
  }

  /** Copies of reachable nodes keep everything, whatever the digest function. */
  lemma CopyOfAddressable(d: NodeData, sha: string -> string)
    requires Tracked(d, sha) && Addressable(d)
    ensures CopyData(d, sha) == d && d.digest.Some?
  {
  }
}
