/** Addresses and slices of the fixed Framed-IP allocator (app/radius/fixed_ip.py):
    dotted-quad text, the supernet configuration and the arithmetic that carves one slice per customer. */
module FixedIpSlices {
  import opened Text
  import opened Arith

  type Address = n: nat | n < 0x1_0000_0000
  type PrefixLength = n: nat | n <= 32

  datatype Failure = ValidationError | ValueError | Exhausted | Conflict
  datatype Result<+T> = Ok(value: T) | Err(error: Failure)

  // ------------------------------------------------------------------ dotted quads

  function Octets(n: Address): (o: seq<nat>)
    ensures |o| == 4 && forall i :: 0 <= i < 4 ==> o[i] < 256
  {
    [n / 0x100_0000, n / 0x1_0000 % 256, n / 256 % 256, n % 256]
  }

  function FromOctets(o: seq<nat>): (n: nat)
    requires |o| == 4 && forall i :: 0 <= i < 4 ==> o[i] < 256
    ensures n < 0x1_0000_0000
  {
    o[0] * 0x100_0000 + o[1] * 0x1_0000 + o[2] * 256 + o[3]
  }

  lemma FromOctetsOf(n: Address)
    ensures FromOctets(Octets(n)) == n
  {
    DivMod(n, 256);
    DivMod(n / 256, 256);
    DivMod(n / 0x1_0000, 256);
    assert n / 256 / 256 == n / 0x1_0000 && n / 0x1_0000 / 256 == n / 0x100_0000;
  }

  lemma OctetsOfFrom(o: seq<nat>)
    requires |o| == 4 && forall i :: 0 <= i < 4 ==> o[i] < 256
    ensures Octets(FromOctets(o)) == o
  {
    var n := FromOctets(o);
    DivUnique(n, 256, o[0] * 0x1_0000 + o[1] * 256 + o[2], o[3]);
    DivUnique(n / 256, 256, o[0] * 256 + o[1], o[2]);
    DivUnique(n, 0x1_0000, o[0] * 256 + o[1], o[2] * 256 + o[3]);
    DivUnique(n / 0x1_0000, 256, o[0], o[1]);
    DivUnique(n, 0x100_0000, o[0], o[1] * 0x1_0000 + o[2] * 256 + o[3]);
  }

  /** `str(ipaddress.IPv4Address(n))`. */
  function AddressText(n: Address): string {
    var o := Octets(n);
    Join(seq(4, i requires 0 <= i < 4 => Decimal(o[i])), '.')
  }

  /** One octet as the `ipaddress` module reads it: ASCII digits, at most three, no leading zero, at most 255. */
  function ParseOctet(s: string): Option<nat> {
    if 1 <= |s| <= 3 && AllDigits(s) && (s == "0" || s[0] != '0') && NumeralValue(s) <= 255
    then Some(NumeralValue(s)) else None
  }

  /** `ipaddress.IPv4Address(text)`, with None for AddressValueError. */
  function ParseAddress(text: string): (r: Option<nat>)
    ensures r.Some? ==> r.value < 0x1_0000_0000
  {
    var parts := Split(text, '.');
    if |parts| != 4 || exists i :: 0 <= i < 4 && ParseOctet(parts[i]).None? then None
    else Some(FromOctets(seq(4, i requires 0 <= i < 4 => ParseOctet(parts[i]).value)))
  }

  lemma ShortNumeral(n: nat)
    requires n <= 255
    ensures |Decimal(n)| <= 3
  {
    if n >= 10 { assert n / 10 < 26; if n / 10 >= 10 { assert |Decimal(n / 10 / 10)| == 1; } }
  }

  lemma OctetRoundTrip(n: nat)
    requires n <= 255
    ensures ParseOctet(Decimal(n)) == Some(n) && '.' !in Decimal(n)
  {
    ShortNumeral(n);
    ValueOfDecimal(n);
    assert Decimal(0) == "0";
  }

  /** Reading back the text the allocator writes gives the address. */
  lemma ParseRendered(n: Address)
    ensures ParseAddress(AddressText(n)) == Some(n)
  {
    var o := Octets(n);
    var parts := seq(4, i requires 0 <= i < 4 => Decimal(o[i]));
    forall i | 0 <= i < 4 ensures ParseOctet(parts[i]) == Some(o[i]) && '.' !in parts[i] {
      OctetRoundTrip(o[i]);
    }
    SplitJoin(parts, '.');
    assert seq(4, i requires 0 <= i < 4 => ParseOctet(parts[i]).value) == o;
    FromOctetsOf(n);
  }

  /** Every text the parser accepts is the rendering of its address, so equal addresses have equal texts:
      the UNIQUE constraint on the text column is a constraint on addresses. */
  lemma RenderParsed(text: string)
    requires ParseAddress(text).Some?
    ensures AddressText(ParseAddress(text).value) == text
  {
    var parts := Split(text, '.');
    var o := seq(4, i requires 0 <= i < 4 => ParseOctet(parts[i]).value);
    forall i | 0 <= i < 4 ensures Decimal(o[i]) == parts[i] {
      DecimalOfValue(parts[i]);
    }
    OctetsOfFrom(o);
    assert seq(4, i requires 0 <= i < 4 => Decimal(o[i])) == parts;
    JoinSplit(text, '.');
  }

  lemma AddressTextInjective(m: Address, n: Address)
    requires AddressText(m) == AddressText(n)
    ensures m == n
  {
    ParseRendered(m);
    ParseRendered(n);
  }

  // ------------------------------------------------------------------ configuration

  /** What `ipaddress.ip_network(self.supernet, strict=False)` is given: host bits are allowed and ignored. */
  datatype Supernet = V4(address: Address, prefix: PrefixLength) | V6 | Malformed

  datatype Config = Config(supernet: Supernet, customerPrefix: int)

  datatype Network = Network(base: nat, prefix: PrefixLength) {
    function Size(): nat { Pow2(32 - prefix) }
    predicate Contains(a: int) { base <= a < base + Size() }
    /** What the strict `ip_network((base, prefix))` demands. */
    predicate Aligned() { base % Size() == 0 && base + Size() <= 0x1_0000_0000 }
  }

  /** `FixedIpConfig.network`. */
  function SupernetOf(cfg: Config): Result<Network> {
    match cfg.supernet
    case Malformed => Err(ValueError)
    case V6 => Err(ValidationError)
    case V4(a, p) =>
      if p <= cfg.customerPrefix <= 32 then Ok(Network(AlignDown(a, Pow2(32 - p)), p)) else Err(ValidationError)
  }

  function BlockSize(cfg: Config): nat
    requires cfg.customerPrefix <= 32
  {
    Pow2(32 - cfg.customerPrefix)
  }

  function CustomerCount(cfg: Config): nat
    requires SupernetOf(cfg).Ok?
  {
    Quotient(SupernetOf(cfg).value.Size(), BlockSize(cfg))
  }

  /** `_usable_bounds`: offset 0 is the network, 1 the gateway, the last one the broadcast address. */
  function UsableBounds(cfg: Config): Result<(nat, nat)>
    requires cfg.customerPrefix <= 32
  {
    var end := BlockSize(cfg) - 2;
    if end < 2 then Err(ValidationError) else Ok((2, end))
  }

  lemma CountIsPower(cfg: Config)
    requires SupernetOf(cfg).Ok?
    ensures CustomerCount(cfg) == Pow2(cfg.customerPrefix - cfg.supernet.prefix)
    ensures SupernetOf(cfg).value.Size() == CustomerCount(cfg) * BlockSize(cfg)
  {
    var count, block := Pow2(cfg.customerPrefix - cfg.supernet.prefix), BlockSize(cfg);
    Pow2Sum(cfg.customerPrefix - cfg.supernet.prefix, 32 - cfg.customerPrefix);
    DivUnique(count * block, block, count, 0);
  }

  /** `customer_network`. */
  function CustomerNetwork(customer: int, cfg: Config): Result<Network> {
    if customer < 0 then Err(ValidationError)
    else match SupernetOf(cfg)
      case Err(e) => Err(e)
      case Ok(net) =>
        CountIsPower(cfg);
        Ok(Network(net.base + customer % CustomerCount(cfg) * BlockSize(cfg), cfg.customerPrefix))
  }

  lemma SupernetInRange(cfg: Config)
    requires SupernetOf(cfg).Ok?
    ensures SupernetOf(cfg).value.Aligned()
  {
    var a, m, k := cfg.supernet.address, Pow2(32 - cfg.supernet.prefix), Pow2(cfg.supernet.prefix);
    assert m * k == 0x1_0000_0000 by { Pow2Of32(); Pow2Sum(32 - cfg.supernet.prefix, cfg.supernet.prefix); }
    AlignFits(a, m, k);
  }

  /** A slice exists exactly for a non-negative customer and an accepted configuration; it is aligned (so the strict
      constructor on line 130 never fails) and lies inside the supernet. */
  lemma SliceInsideSupernet(customer: int, cfg: Config)
    ensures CustomerNetwork(customer, cfg).Ok? <==> customer >= 0 && SupernetOf(cfg).Ok?
    ensures CustomerNetwork(customer, cfg).Ok? ==>
              var slice, net := CustomerNetwork(customer, cfg).value, SupernetOf(cfg).value;
              && slice.Aligned() && slice.Size() == BlockSize(cfg)
              && forall a :: slice.Contains(a) ==> net.Contains(a)
  {
    if customer >= 0 && SupernetOf(cfg).Ok? {
      CountIsPower(cfg);
      SupernetInRange(cfg);
      BlockFits(SupernetOf(cfg).value.base, CustomerCount(cfg), BlockSize(cfg), customer % CustomerCount(cfg));
      var slice := CustomerNetwork(customer, cfg).value;
      MulMonotone(BlockSize(cfg), 0, customer % CustomerCount(cfg));
      assert slice.Size() == BlockSize(cfg);
    }
  }

  /** Two customers share no address if and only if their ids differ modulo the number of slices;
      otherwise they share the whole slice. */
  lemma SlicesDisjointIff(a: nat, b: nat, cfg: Config)
    requires SupernetOf(cfg).Ok?
    ensures CustomerCount(cfg) > 0
    ensures var s, t := CustomerNetwork(a, cfg).value, CustomerNetwork(b, cfg).value;
            && (a % CustomerCount(cfg) != b % CustomerCount(cfg) <==> forall x :: !(s.Contains(x) && t.Contains(x)))
            && (a % CustomerCount(cfg) == b % CustomerCount(cfg) ==> s == t)
  {
    CountIsPower(cfg);
    var s, t := CustomerNetwork(a, cfg).value, CustomerNetwork(b, cfg).value;
    var i, j := a % CustomerCount(cfg), b % CustomerCount(cfg);
    if i == j { assert s.Contains(s.base) && t.Contains(s.base); }
    if i < j { BlocksApart(BlockSize(cfg), i, j); }
    if j < i { BlocksApart(BlockSize(cfg), j, i); }
  }

  /** The documentation says addresses never collide across customers; with a /8 cut into /16 slices, as by default,
      there are 256 slices, so customer a and customer a + 256 get the same one. */
  lemma CustomersMayShareASlice(a: nat, cfg: Config)
    requires SupernetOf(cfg).Ok? && cfg.customerPrefix - cfg.supernet.prefix == 8
    ensures CustomerNetwork(a, cfg).Ok? && CustomerNetwork(a, cfg) == CustomerNetwork(a + 256, cfg)
  {
    assert CustomerCount(cfg) == 256 by { CountIsPower(cfg); assert Pow2(8) == 256; }
    SlicesDisjointIff(a, a + 256, cfg);
  }

  // ------------------------------------------------------------------ probe order

  /** SHA-256 of "<customer>:<username>", read as a big-endian number, is left uninterpreted. */
  type Digest = (int, string) -> nat

  /** Everything `allocate_fixed_ip` derives before its loop (lines 181-185). */
  datatype Layout = Layout(base: nat, count: nat, first: nat) {
    predicate Valid() { count >= 1 && first < count && base + 1 + count < 0x1_0000_0000 }

    /** The address tried in round i (line 189). */
    function ProbeAddress(i: nat): Address
      requires Valid() && i < count
    {
      base + 2 + (first + i) % count
    }

    /** The candidate texts in the order the loop tries them. */
    function Probes(): (r: seq<string>)
      requires Valid()
      ensures |r| == count
    {
      seq(count, i requires 0 <= i < count => AddressText(ProbeAddress(i)))
    }
  }

  function LayoutFor(digest: Digest, user: string, customer: int, cfg: Config): (r: Result<Layout>)
    ensures r.Ok? ==> r.value.Valid() && cfg.customerPrefix <= 32 && r.value.count == BlockSize(cfg) - 3
  {
    match CustomerNetwork(customer, cfg)
    case Err(e) => Err(e)
    case Ok(net) =>
      match UsableBounds(cfg)
      case Err(e) => Err(e)
      case Ok((start, end)) =>
        SliceInsideSupernet(customer, cfg);
        var count := end - start + 1;
        Ok(Layout(net.base, count, digest(customer, user) % count))
  }

  /** Usable addresses of a slice: inside it, and neither network, gateway nor broadcast. */
  predicate Usable(net: Network, a: int) {
    net.Contains(a) && a != net.base && a != net.base + 1 && a != net.base + net.Size() - 1
  }

  /** The probe visits usable addresses only, each at most once, and every one of them. */
  lemma ProbeIsABijection(digest: Digest, user: string, customer: int, cfg: Config)
    requires LayoutFor(digest, user, customer, cfg).Ok?
    ensures var p, net := LayoutFor(digest, user, customer, cfg).value, CustomerNetwork(customer, cfg).value;
            && (forall i :: 0 <= i < p.count ==> Usable(net, p.ProbeAddress(i)))
            && (forall i, j :: 0 <= i < j < p.count ==> p.ProbeAddress(i) != p.ProbeAddress(j))
            && (forall a :: Usable(net, a) ==> exists i :: 0 <= i < p.count && p.ProbeAddress(i) == a)
  {
    SliceInsideSupernet(customer, cfg);
    var p, net := LayoutFor(digest, user, customer, cfg).value, CustomerNetwork(customer, cfg).value;
    forall i, j | 0 <= i < j < p.count ensures p.ProbeAddress(i) != p.ProbeAddress(j) {
      CyclicDistinct(p.first, p.count, i, j);
    }
    forall a | Usable(net, a) ensures exists i :: 0 <= i < p.count && p.ProbeAddress(i) == a {
      var i := CyclicIndex(p.first, p.count, a - net.base - 2);
      assert p.ProbeAddress(i) == a;
    }
  }

  lemma CyclicDistinct(first: nat, count: nat, i: nat, j: nat)
    requires first < count && i < j < count
    ensures (first + i) % count != (first + j) % count
  {
    CyclicValue(first, count, i);
    CyclicValue(first, count, j);
  }

  lemma CyclicIndex(first: nat, count: nat, target: nat) returns (i: nat)
    requires first < count && target < count
    ensures i < count && (first + i) % count == target
  {
    i := if first <= target then target - first else target - first + count;
    CyclicValue(first, count, i);
  }
}
