/**
 Cache generations in Redis (src/infrastructure/cache/redis-domain-cache.ts): decimal strings
 compared by length and then byte by byte inside one script, so that a key only ever moves up.
 */
module Generations {
  import opened Arithmetic

  // ----- canonical decimal strings -----

  function Digit(d: nat): char
    requires d < 10
  {
    ('0' as int + d) as char
  }

  /** Decimal representation without leading zeros, as a bigint prints. */
  function ToDecimal(n: nat): (s: string)
    ensures s != []
  {
    if n < 10 then [Digit(n)] else ToDecimal(n / 10) + [Digit(n % 10)]
  }

  predicate IsDigit(c: char) {
    '0' <= c <= '9'
  }

  function DigitValue(c: char): nat
    requires IsDigit(c)
  {
    c as int - '0' as int
  }

  /** Value of a digit string, leading zeros allowed, as a bigint parses. */
  function FromDecimal(s: string): nat
    requires forall c | c in s :: IsDigit(c)
  {
    if s == [] then 0
    else
      assert s[|s| - 1] in s && IsDigit(s[|s| - 1]);
      FromDecimal(s[..|s| - 1]) * 10 + DigitValue(s[|s| - 1])
  }

  lemma {:induction false} DecimalRoundTrip(n: nat)
    ensures forall c | c in ToDecimal(n) :: IsDigit(c)
    ensures FromDecimal(ToDecimal(n)) == n
  {
    if n < 10 {
      assert [Digit(n)][..0] == [];
    } else {
      DecimalRoundTrip(n / 10);
      assert ToDecimal(n)[..|ToDecimal(n)| - 1] == ToDecimal(n / 10);
    }
  }

  /** Byte order of strings. */
  predicate LexGreater(s: string, t: string) {
    if s == [] then false
    else if t == [] then true
    else s[0] > t[0] || (s[0] == t[0] && LexGreater(s[1..], t[1..]))
  }

  /** The script's test for an incoming value to replace the current one. */
  predicate Newer(incoming: string, current: string) {
    |incoming| > |current| || (|incoming| == |current| && LexGreater(incoming, current))
  }

  lemma {:induction false} LexSnoc(s: string, t: string, x: char, y: char)
    requires |s| == |t|
    ensures LexGreater(s + [x], t + [y]) <==> LexGreater(s, t) || (s == t && x > y)
  {
    if s != [] {
      LexSnoc(s[1..], t[1..], x, y);
      assert (s + [x])[1..] == s[1..] + [x];
      assert (t + [y])[1..] == t[1..] + [y];
      assert s == t <==> s[0] == t[0] && s[1..] == t[1..];
    } else {
      assert (s + [x])[1..] == [] && (t + [y])[1..] == [];
    }
  }

  /** Length first, then bytes, is numeric order on canonical decimals. */
  lemma {:induction false} NewerIsGreater(a: nat, b: nat)
    ensures Newer(ToDecimal(a), ToDecimal(b)) <==> a > b
  {
    if a >= 10 && b >= 10 {
      NewerIsGreater(a / 10, b / 10);
      var s, t := ToDecimal(a / 10), ToDecimal(b / 10);
      if |s| == |t| {
        LexSnoc(s, t, Digit(a % 10), Digit(b % 10));
      }
      DecimalRoundTrip(a / 10);
      DecimalRoundTrip(b / 10);
      assert s == t <==> a / 10 == b / 10;
    } else if a < 10 && b < 10 {
      assert ToDecimal(a) == [Digit(a)] && ToDecimal(b) == [Digit(b)];
      assert !LexGreater([], []);
      assert ToDecimal(a)[1..] == [] && ToDecimal(b)[1..] == [];
      assert Digit(a) > Digit(b) <==> a > b;
    }
  }

  // ----- the generation keys -----

  /** Redis as the generation script sees it. */
  class GenerationKeys {
    var values: map<string, string>

    ghost predicate Valid()
      reads this
    {
      forall d | d in values :: exists n: nat :: values[d] == ToDecimal(n)
    }

    /** Numeric generation of a domain; an absent key counts as zero. */
    ghost function Generation(domain: string): nat
      reads this
      requires Valid()
    {
      if domain in values then
        var n: nat :| values[domain] == ToDecimal(n);
        DecimalRoundTrip(n);
        FromDecimal(values[domain])
      else 0
    }

    constructor ()
      ensures Valid() && values == map[]
    {
      values := map[];
    }

    /** The script: the key becomes the numeric maximum of its value and the incoming one. */
    method ApplyStrict(domain: string, generation: nat) returns (kept: string)
      requires Valid()
      modifies this
      ensures Valid()
      ensures Generation(domain) == Max(old(Generation(domain)), generation)
      ensures domain in values && kept == values[domain] == ToDecimal(Generation(domain))
      ensures values == old(values)[domain := kept]
    {
      var incoming := ToDecimal(generation);
      DecimalRoundTrip(generation);
      if domain in values {
        ghost var n: nat :| values[domain] == ToDecimal(n);
        DecimalRoundTrip(n);
        NewerIsGreater(generation, n);
        if Newer(incoming, values[domain]) {
          values := values[domain := incoming];
          kept := incoming;
        } else {
          kept := values[domain];
          assert values == values[domain := kept];
        }
      } else {
        values := values[domain := incoming];
        kept := incoming;
      }
      assert forall d | d in values :: values[d] == kept || (d in old(values) && values[d] == old(values)[d]);
    }

    /** Reads the generation back as a number; a failed call reads as zero. */
    method GetGeneration(domain: string, redisUp: bool) returns (g: nat)
      requires Valid()
      ensures g == if redisUp then Generation(domain) else 0
    {
      if redisUp && domain in values {
        ghost var n: nat :| values[domain] == ToDecimal(n);
        DecimalRoundTrip(n);
        g := FromDecimal(values[domain]);
      } else {
        g := 0;
      }
    }
  }

  // ----- delivery order -----

  /** Generation after a sequence of deliveries. */
  function Deliver(start: nat, deliveries: seq<nat>): nat {
    if deliveries == [] then start
    else Max(Deliver(start, deliveries[..|deliveries| - 1]), deliveries[|deliveries| - 1])
  }

  lemma {:induction false} DeliverIsMaximum(start: nat, deliveries: seq<nat>)
    ensures start <= Deliver(start, deliveries)
    ensures forall g | g in deliveries :: g <= Deliver(start, deliveries)
    ensures Deliver(start, deliveries) == start || Deliver(start, deliveries) in deliveries
  {
    if deliveries != [] {
      var n := |deliveries| - 1;
      DeliverIsMaximum(start, deliveries[..n]);
      assert deliveries == deliveries[..n] + [deliveries[n]];
    }
  }

  /** Duplicated and reordered deliveries end at the same generation. */
  lemma DeliveryOrderIrrelevant(start: nat, a: seq<nat>, b: seq<nat>)
    requires forall g :: g in a <==> g in b
    ensures Deliver(start, a) == Deliver(start, b)
  {
    DeliverIsMaximum(start, a);
    DeliverIsMaximum(start, b);
  }
}
