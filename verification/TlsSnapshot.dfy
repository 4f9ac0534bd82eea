/**
 Loading a coherent generation of TLS material from three files that rotate independently,
 and the byte stream its fingerprint is computed from.
 */
module TlsSnapshot {
  import opened Text

  type Bytes = seq<Byte>

  datatype File = Ca | Cert | Key

  datatype Material = Material(ca: Bytes, cert: Bytes, key: Bytes) {
    function Of(f: File): Bytes {
      match f case Ca => ca case Cert => cert case Key => key
    }
  }

  datatype Error = ReadFailed(file: File) | Unstable(attempts: nat)

  datatype Result<+T> = Ok(value: T) | Err(error: Error)

  const ATTEMPTS: nat := 3

  /** What a read of the file finds at an instant; `None` when the read fails. */
  type Schedule = (File, nat) -> Option<Bytes>

  /** Every collect reads the three files one after the other; `clock` gives the instant of each read. */
  type Clock = nat -> nat

  ghost predicate Monotone(clock: Clock) {
    forall i: nat, j: nat | i <= j :: clock(i) <= clock(j)
  }

  /** Collect number `k`, made by reads 3k, 3k+1 and 3k+2. */
  function Collect(disk: Schedule, clock: Clock, k: nat): Result<Material> {
    var ca := disk(Ca, clock(3 * k));
    var cert := disk(Cert, clock(3 * k + 1));
    var key := disk(Key, clock(3 * k + 2));
    if ca.None? then Err(ReadFailed(Ca))
    else if cert.None? then Err(ReadFailed(Cert))
    else if key.None? then Err(ReadFailed(Key))
    else Ok(Material(ca.value, cert.value, key.value))
  }

  /** A collect fails with the first file, in the order CA, certificate, key, whose read fails. */
  lemma CollectExactly(disk: Schedule, clock: Clock, k: nat)
    ensures var ca, cert, key := disk(Ca, clock(3 * k)), disk(Cert, clock(3 * k + 1)), disk(Key, clock(3 * k + 2));
            var r := Collect(disk, clock, k);
            && (r.Ok? <==> ca.Some? && cert.Some? && key.Some?)
            && (r.Ok? ==> r.value.ca == ca.value && r.value.cert == cert.value && r.value.key == key.value)
            && (r == Err(ReadFailed(Ca)) <==> ca.None?)
            && (r == Err(ReadFailed(Cert)) <==> ca.Some? && cert.None?)
            && (r == Err(ReadFailed(Key)) <==> ca.Some? && cert.Some? && key.None?)
  {
  }

  /** Two adjacent collects succeeded and agree. */
  predicate Agree(collect: nat -> Result<Material>, k: nat) {
    collect(k).Ok? && collect(k + 1) == collect(k)
  }

  /** The loop returns the first of at most three adjacent pairs that agree; it reports instability
      only when all four collects succeeded and every adjacent pair differs, and a read failure
      only when the collect that failed was reached. */
  method LoadStableSnapshot(collect: nat -> Result<Material>) returns (r: Result<Material>, collects: nat)
    ensures 1 <= collects <= 4
    ensures forall k | 0 <= k < collects - 1 :: collect(k).Ok?
    ensures r.Ok? ==> collects >= 2 && r == collect(collects - 1) == collect(collects - 2)
    ensures forall k | 0 <= k < collects - 2 :: collect(k) != collect(k + 1)
    ensures r.Err? && collect(collects - 1).Ok? ==>
              r == Err(Unstable(3)) && collects == 4 && forall k | 0 <= k < 3 :: collect(k) != collect(k + 1)
    ensures r.Err? && collect(collects - 1).Err? ==> r == collect(collects - 1)
  {
    collects := 1;
    var first := collect(0);
    if first.Err? { return first, collects; }
    var previous := first.value;
    for n := 0 to ATTEMPTS
      invariant collects == n + 1
      invariant forall k | 0 <= k <= n :: collect(k).Ok?
      invariant collect(n) == Ok(previous)
      invariant forall k | 0 <= k < n :: collect(k) != collect(k + 1)
    {
      var current := collect(n + 1);
      collects := collects + 1;
      if current.Err? { return current, collects; }
      if current.value == previous {
        return current, collects;
      }
      previous := current.value;
    }
    return Err(Unstable(ATTEMPTS)), collects;
  }

  predicate Match(disk: Schedule, clock: Clock, k: nat) {
    Agree((n: nat) => Collect(disk, clock, n), k)
  }

  // ---- When matching collects mean one coherent instant -------------------------------------

  /** The file never goes back to content it had before; it may be unreadable any number of times. */
  ghost predicate NeverReturns(disk: Schedule, f: File) {
    forall i: nat, j: nat, k: nat | i <= j <= k && disk(f, i).Some? && disk(f, i) == disk(f, k) ::
      disk(f, j) == disk(f, i)
  }

  /** Only the files in `loose` may go back to earlier content. */
  ghost predicate Rotates(disk: Schedule, loose: set<File>) {
    forall f | f !in loose :: NeverReturns(disk, f)
  }

  /** At some instant the three files held exactly `m`. */
  ghost predicate Coexisted(disk: Schedule, m: Material) {
    exists t: nat :: Holds(disk, m, t)
  }

  predicate Holds(disk: Schedule, m: Material, t: nat) {
    disk(Ca, t) == Some(m.ca) && disk(Cert, t) == Some(m.cert) && disk(Key, t) == Some(m.key)
  }

  ghost predicate AlwaysCoherent(loose: set<File>) {
    forall disk: Schedule, clock: Clock, k: nat ::
      Rotates(disk, loose) && Monotone(clock) && Match(disk, clock, k) ==>
        Coexisted(disk, Collect(disk, clock, k).value)
  }

  /** The certificate does not go back, and neither does the CA file or else the key file. */
  predicate Enough(loose: set<File>) {
    Cert !in loose && (Ca !in loose || Key !in loose)
  }

  lemma MatchedCollectsCoexisted(disk: Schedule, clock: Clock, k: nat, loose: set<File>)
    requires Enough(loose) && Rotates(disk, loose) && Monotone(clock) && Match(disk, clock, k)
    ensures Coexisted(disk, Collect(disk, clock, k).value)
  {
    var m := Collect(disk, clock, k).value;
    assert Collect(disk, clock, k + 1) == Ok(m);
    var n := 3 * k;
    assert clock(n) <= clock(n + 1) <= clock(n + 2) <= clock(n + 3) <= clock(n + 4) <= clock(n + 5);
    assert 3 * (k + 1) == n + 3;
    assert NeverReturns(disk, Cert);
    if Ca !in loose {
      assert NeverReturns(disk, Ca);
      assert disk(Ca, clock(n + 2)) == disk(Ca, clock(n));
      assert disk(Cert, clock(n + 2)) == disk(Cert, clock(n + 1));
      assert Holds(disk, m, clock(n + 2));
    } else {
      assert NeverReturns(disk, Key);
      assert disk(Key, clock(n + 3)) == disk(Key, clock(n + 2));
      assert disk(Cert, clock(n + 3)) == disk(Cert, clock(n + 1));
      assert Holds(disk, m, clock(n + 3));
    }
  }

  /** Read number `i` happens at instant `i`. */
  function Tick(i: nat): nat {
    i
  }

  function Step(at: nat, t: nat, before: Bytes, after: Bytes): Option<Bytes> {
    Some(if t < at then before else after)
  }

  /** `v`, then `w` from instant `a`, then `v` again from instant `b`. */
  function Swing(a: nat, b: nat, t: nat, v: Bytes, w: Bytes): Option<Bytes> {
    Some(if a <= t < b then w else v)
  }

  /** CA and key each change once, while the certificate changes and changes back in between. */
  function CertSwings(f: File, t: nat): Option<Bytes> {
    match f
    case Ca => Step(4, t, [1], [2])
    case Cert => Swing(2, 4, t, [1], [2])
    case Key => Step(2, t, [1], [2])
  }

  /** The certificate stays; CA and key change and change back at different times. */
  function EndsSwing(f: File, t: nat): Option<Bytes> {
    match f
    case Ca => Some(if t == 0 || t == 3 then [1] else [2])
    case Cert => Some([1])
    case Key => Some(if t == 2 || t == 5 then [1] else [2])
  }

  lemma CertMustNotReturn()
    ensures Rotates(CertSwings, {Cert}) && Monotone(Tick) && Match(CertSwings, Tick, 0)
    ensures !Coexisted(CertSwings, Collect(CertSwings, Tick, 0).value)
  {
    assert Collect(CertSwings, Tick, 0) == Ok(Material([1], [1], [2]));
    assert Collect(CertSwings, Tick, 1) == Ok(Material([1], [1], [2]));
    forall f: File | f !in {Cert} ensures NeverReturns(CertSwings, f) {
    }
  }

  lemma CaOrKeyMustNotReturn()
    ensures Rotates(EndsSwing, {Ca, Key}) && Monotone(Tick) && Match(EndsSwing, Tick, 0)
    ensures !Coexisted(EndsSwing, Collect(EndsSwing, Tick, 0).value)
  {
    assert Collect(EndsSwing, Tick, 0) == Ok(Material([1], [1], [1]));
    assert Collect(EndsSwing, Tick, 1) == Ok(Material([1], [1], [1]));
    forall f: File | f !in {Ca, Key} ensures NeverReturns(EndsSwing, f) {
    }
  }

  /** Matching collects are coherent for every schedule exactly when the certificate never goes
      back to earlier content and not both of the other files may. */
  lemma CoherentExactlyWhen(loose: set<File>)
    ensures AlwaysCoherent(loose) <==> Enough(loose)
  {
    if Enough(loose) {
      forall disk: Schedule, clock: Clock, k: nat
        | Rotates(disk, loose) && Monotone(clock) && Match(disk, clock, k)
        ensures Coexisted(disk, Collect(disk, clock, k).value)
      {
        MatchedCollectsCoexisted(disk, clock, k, loose);
      }
    } else if Cert in loose {
      CertMustNotReturn();
      assert Rotates(CertSwings, loose);
    } else {
      CaOrKeyMustNotReturn();
      assert Rotates(EndsSwing, loose);
    }
  }

  /** A snapshot loaded from rotating files is material the files held together at some instant. */
  method LoadFromDisk(disk: Schedule, clock: Clock, ghost loose: set<File>) returns (r: Result<Material>)
    requires Enough(loose) && Rotates(disk, loose) && Monotone(clock)
    ensures r.Ok? ==> Coexisted(disk, r.value)
  {
    var collect := (n: nat) => Collect(disk, clock, n);
    var collects;
    r, collects := LoadStableSnapshot(collect);
    if r.Ok? {
      assert Match(disk, clock, collects - 2);
      MatchedCollectsCoexisted(disk, clock, collects - 2, loose);
    }
  }

  // ---- The fingerprint's input --------------------------------------------------------------

  /** `n` as `width` bytes, least significant first. */
  function LittleEndian(n: nat, width: nat): (b: Bytes)
    ensures |b| == width
  {
    if width == 0 then [] else [n % 256] + LittleEndian(n / 256, width - 1)
  }

  function Pow256(width: nat): nat {
    if width == 0 then 1 else 256 * Pow256(width - 1)
  }

  lemma {:induction false} LittleEndianInjective(m: nat, n: nat, width: nat)
    requires m < Pow256(width) && n < Pow256(width)
    requires LittleEndian(m, width) == LittleEndian(n, width)
    ensures m == n
  {
    if width > 0 {
      assert LittleEndian(m, width)[1..] == LittleEndian(m / 256, width - 1);
      assert LittleEndian(n, width)[1..] == LittleEndian(n / 256, width - 1);
      LittleEndianInjective(m / 256, n / 256, width - 1);
      assert m % 256 == LittleEndian(m, width)[0] == n % 256;
    }
  }

  /** A length in eight bytes, then the content. */
  function Framed(pem: Bytes): Bytes {
    LittleEndian(|pem|, 8) + pem
  }

  function Stream(pems: seq<Bytes>): Bytes {
    if pems == [] then [] else Framed(pems[0]) + Stream(pems[1..])
  }

  predicate Encodable(pem: Bytes) {
    |pem| < 0x1_0000_0000_0000_0000
  }

  lemma StreamNext(pems: seq<Bytes>, i: nat, fed: Bytes)
    requires i < |pems|
    ensures fed + Stream(pems[i..]) == fed + LittleEndian(|pems[i]|, 8) + pems[i] + Stream(pems[i + 1..])
  {
    assert pems[i..][0] == pems[i] && pems[i..][1..] == pems[i + 1..];
    var a, b, c := LittleEndian(|pems[i]|, 8), pems[i], Stream(pems[i + 1..]);
    assert fed + (a + b + c) == fed + a + b + c;
  }

  /** What `from_raw` feeds the hasher, and the identity it hands to the HTTP client. */
  method FeedHasher(raw: Material) returns (fed: Bytes, identity: Bytes)
    ensures fed == LittleEndian(|raw.ca|, 8) + raw.ca + LittleEndian(|raw.cert|, 8) + raw.cert
                   + LittleEndian(|raw.key|, 8) + raw.key
    ensures fed == Stream([raw.ca, raw.cert, raw.key])
    ensures identity == raw.cert + raw.key
  {
    var pems := [raw.ca, raw.cert, raw.key];
    fed := [];
    for i := 0 to |pems|
      invariant fed + Stream(pems[i..]) == Stream(pems)
    {
      StreamNext(pems, i, fed);
      fed := fed + LittleEndian(|pems[i]|, 8);
      fed := fed + pems[i];
    }
    identity := raw.cert;
    identity := identity + raw.key;
    ThreeFramed(raw.ca, raw.cert, raw.key);
  }

  lemma ThreeFramed(a: Bytes, b: Bytes, c: Bytes)
    ensures Stream([a, b, c])
            == LittleEndian(|a|, 8) + a + LittleEndian(|b|, 8) + b + LittleEndian(|c|, 8) + c
  {
    assert [a, b, c][1..] == [b, c] && [b, c][1..] == [c] && [c][1..] == [];
    assert Stream([c]) == Framed(c) + [] == Framed(c);
    assert Stream([b, c]) == Framed(b) + Framed(c);
    assert Stream([a, b, c]) == Framed(a) + (Framed(b) + Framed(c));
  }

  /** Byte `i` of the encoding is worth 256 to the power `i`. */
  lemma {:induction false} LittleEndianValue(n: nat, width: nat)
    requires n < Pow256(width)
    ensures BytesValue(LittleEndian(n, width)) == n
  {
    if width > 0 {
      var b := LittleEndian(n, width);
      LittleEndianValue(n / 256, width - 1);
      assert b[1..] == LittleEndian(n / 256, width - 1);
    }
  }

  function BytesValue(b: Bytes): nat {
    if b == [] then 0 else b[0] + 256 * BytesValue(b[1..])
  }

  lemma FramedInjective(a: Bytes, b: Bytes, restA: Bytes, restB: Bytes)
    requires Encodable(a) && Encodable(b) && Framed(a) + restA == Framed(b) + restB
    ensures a == b && restA == restB
  {
    var x, y := Framed(a) + restA, Framed(b) + restB;
    assert x[..8] == LittleEndian(|a|, 8) && y[..8] == LittleEndian(|b|, 8);
    assert Pow256(8) == 0x1_0000_0000_0000_0000;
    LittleEndianInjective(|a|, |b|, 8);
    assert x[8..8 + |a|] == a && y[8..8 + |b|] == b;
    assert x[8 + |a|..] == restA && y[8 + |b|..] == restB;
  }

  lemma {:induction false} StreamInjective(p: seq<Bytes>, q: seq<Bytes>)
    requires |p| == |q| && Stream(p) == Stream(q)
    requires (forall b | b in p :: Encodable(b)) && (forall b | b in q :: Encodable(b))
    ensures p == q
  {
    if p != [] {
      assert p[0] in p && q[0] in q;
      FramedInjective(p[0], q[0], Stream(p[1..]), Stream(q[1..]));
      StreamInjective(p[1..], q[1..]);
    }
  }

  /** Different material gives the hasher a different stream, wherever the file boundaries are. */
  lemma FingerprintInputInjective(a: Material, b: Material)
    requires forall f :: Encodable(a.Of(f)) && Encodable(b.Of(f))
    requires Stream([a.ca, a.cert, a.key]) == Stream([b.ca, b.cert, b.key])
    ensures a == b
  {
    var p, q := [a.ca, a.cert, a.key], [b.ca, b.cert, b.key];
    assert Encodable(a.Of(Ca)) && Encodable(a.Of(Cert)) && Encodable(a.Of(Key));
    assert Encodable(b.Of(Ca)) && Encodable(b.Of(Cert)) && Encodable(b.Of(Key));
    StreamInjective(p, q);
    assert p[0] == q[0] && p[1] == q[1] && p[2] == q[2];
  }
}
