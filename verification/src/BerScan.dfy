/** Nested BER: the end-of-contents scanner and the collector of constructed strings. */
module BerScan {
  import opened Bytes
  import opened BerHeaders

  /** `asn1_check_eoc`. */
  predicate Eoc(s: seq<Byte>) {
    |s| >= 2 && s[0] == 0 && s[1] == 0
  }

  /** These octets are the header of an empty element with the tag 0 that section 8.1.5 of X.690 reserves for them. */
  lemma EocIsAnEmptyElement(s: seq<Byte>)
    ensures Eoc(s) <==> Header(0, 0, 0, 0) <= s
  {
    assert Header(0, 0, 0, 0) == [0, 0];
  }

  /** `asn1_check_tlen` without a cache: `tag` -1 accepts any tag. */
  function CheckTlen(s: seq<Byte>, tag: int, xclass: nat): (r: Option<Head>)
    ensures r.Some? ==> 2 <= r.value.size && r.value.size + r.value.length <= |s|
    ensures r.Some? && r.value.inf ==> r.value.constructed && r.value.length == |s| - r.value.size
  {
    var h := GetObject(s);
    if h.None? || h.value.tooLong then None
    else if tag >= 0 && (tag != h.value.tag || xclass != h.value.xclass) then None
    else if h.value.inf then Some(h.value.(length := |s| - h.value.size))
    else h
  }

  method ReadTlen(s: seq<Byte>, tag: int, xclass: nat) returns (r: Option<Head>)
    ensures r == CheckTlen(s, tag, xclass)
  {
    r := ReadObject(s);
    if r.None? || r.value.tooLong {
      return None;
    }
    if tag >= 0 && (tag != r.value.tag || xclass != r.value.xclass) {
      return None;
    }
    if r.value.inf {
      r := Some(r.value.(length := |s| - r.value.size));
    }
  }

  /**
   * A written header in front of its content is taken exactly if its tag and class are the
   * ones expected, or any tag will do; contents of indefinite length reach to the end.
   */
  lemma TagDecides(constructed: int, length: nat, t: nat, cls: int, rest: seq<Byte>, tag: int, xclass: nat)
    requires t <= INT_MAX && length <= INT_MAX && (constructed != 2 ==> length <= |rest|)
    requires |Header(constructed, length, t, cls) + rest| <= INT_MAX
    ensures var h := Header(constructed, length, t, cls);
            var c := cls % 256 / 64 * 64;
            CheckTlen(h + rest, tag, xclass) ==
              if tag < 0 || (tag == t && xclass == c) then
                Some(Head(constructed != 0, c, t, constructed == 2, if constructed == 2 then |rest| else length, |h|, false))
              else None
  {
    GetUndoesPutInRange(constructed, length, t, cls, rest);
  }

  // ---- the end of indefinite-length contents ----

  /** The scanners only care that a header has at least two octets and its content fits. */
  type Reader = seq<Byte> -> Option<Head>

  ghost predicate Sound(read: Reader) {
    forall s :: read(s).Some? ==> 2 <= read(s).value.size && read(s).value.size + read(s).value.length <= |s|
  }

  function AnyTag(s: seq<Byte>): Option<Head> {
    CheckTlen(s, -1, 0)
  }

  /**
   * The grammar: contents of indefinite length are elements up to the end-of-contents
   * octets; an element is a definite one, or a header and again such contents.
   * The result is how many octets that takes.
   */
  function Contents(read: Reader, s: seq<Byte>): (r: Option<nat>)
    requires Sound(read)
    ensures r.Some? ==> 2 <= r.value <= |s|
    decreases |s|
  {
    if Eoc(s) then Some(2)
    else
      var e := Element(read, s);
      if e.None? then None
      else
        var rest := Contents(read, s[e.value..]);
        if rest.None? then None else Some(e.value + rest.value)
  }

  function Element(read: Reader, s: seq<Byte>): (r: Option<nat>)
    requires Sound(read)
    ensures r.Some? ==> 2 <= r.value <= |s|
    decreases |s|, 0
  {
    if s == [] then None
    else
      var h := read(s);
      if h.None? then None
      else if !h.value.inf then Some(h.value.size + h.value.length)
      else
        var nested := Contents(read, s[h.value.size..]);
        if nested.None? then None else Some(h.value.size + nested.value)
  }

  /** The counting loop of `asn1_find_end`, started with `eocs` ends still to come. */
  function Counting(read: Reader, s: seq<Byte>, eocs: nat): Option<nat>
    requires eocs > 0 && Sound(read)
    decreases |s|
  {
    if s == [] then None
    else if Eoc(s) then if eocs == 1 then Some(2) else Plus(2, Counting(read, s[2..], eocs - 1))
    else
      var h := read(s);
      if h.None? then None
      else if h.value.inf then Plus(h.value.size, Counting(read, s[h.value.size..], eocs + 1))
      else Plus(h.value.size + h.value.length, Counting(read, s[h.value.size + h.value.length..], eocs))
  }

  function Plus(n: nat, r: Option<nat>): Option<nat> {
    if r.None? then None else Some(n + r.value)
  }

  /** Counting `eocs` ends is going through one contents after the other. */
  function Levels(read: Reader, s: seq<Byte>, eocs: nat): Option<nat>
    requires eocs > 0 && Sound(read)
    decreases eocs
  {
    var first := Contents(read, s);
    if first.None? || eocs == 1 then first else Plus(first.value, Levels(read, s[first.value..], eocs - 1))
  }

  lemma {:induction false} CountingFollowsGrammar(read: Reader, s: seq<Byte>, eocs: nat)
    requires eocs > 0 && Sound(read)
    ensures Counting(read, s, eocs) == Levels(read, s, eocs)
    decreases |s|
  {
    if s != [] && Eoc(s) {
      if eocs > 1 {
        CountingFollowsGrammar(read, s[2..], eocs - 1);
      }
    } else if s != [] && read(s).Some? {
      var h := read(s).value;
      if h.inf {
        CountingFollowsGrammar(read, s[h.size..], eocs + 1);
        OpenedLevel(read, s, h.size, eocs);
      } else {
        var n := h.size + h.length;
        CountingFollowsGrammar(read, s[n..], eocs);
        SkippedElement(read, s, n, eocs);
      }
    } else {
      assert Element(read, s).None?;
    }
  }

  lemma SkippedElement(read: Reader, s: seq<Byte>, n: nat, eocs: nat)
    requires eocs > 0 && Sound(read) && !Eoc(s) && Element(read, s) == Some(n)
    ensures Levels(read, s, eocs) == Plus(n, Levels(read, s[n..], eocs))
  {
    var rest := Contents(read, s[n..]);
    if rest.Some? && eocs > 1 {
      assert s[n..][rest.value..] == s[n + rest.value..];
    }
  }

  lemma FirstLevel(read: Reader, s: seq<Byte>, eocs: nat)
    requires eocs > 1 && Sound(read)
    ensures Contents(read, s).None? ==> Levels(read, s, eocs).None?
    ensures Contents(read, s).Some? ==>
      var n := Contents(read, s).value; Levels(read, s, eocs) == Plus(n, Levels(read, s[n..], eocs - 1))
  {
  }

  lemma OpenedAndClosed(read: Reader, s: seq<Byte>, n: nat, eocs: nat, k: nat)
    requires eocs > 0 && Sound(read) && !Eoc(s) && s != []
    requires read(s).Some? && read(s).value.inf && n == read(s).value.size && Contents(read, s[n..]) == Some(k)
    ensures Levels(read, s, eocs) == Plus(n, Levels(read, s[n..], eocs + 1))
  {
    FirstLevel(read, s[n..], eocs + 1);
    OpenedElement(read, s, n, k);
    SkippedElement(read, s, n + k, eocs);
    PlusPlus(n, k, Levels(read, s[n + k..], eocs));
  }

  lemma PlusPlus(n: nat, k: nat, r: Option<nat>)
    ensures Plus(n + k, r) == Plus(n, Plus(k, r))
  {
  }

  lemma OpenedElement(read: Reader, s: seq<Byte>, n: nat, k: nat)
    requires Sound(read) && !Eoc(s) && s != []
    requires read(s).Some? && read(s).value.inf && n == read(s).value.size && Contents(read, s[n..]) == Some(k)
    ensures Element(read, s) == Some(n + k) && s[n..][k..] == s[n + k..]
  {
  }

  lemma OpenedLevel(read: Reader, s: seq<Byte>, n: nat, eocs: nat)
    requires eocs > 0 && Sound(read) && !Eoc(s) && s != []
    requires read(s).Some? && read(s).value.inf && n == read(s).value.size
    ensures Levels(read, s, eocs) == Plus(n, Levels(read, s[n..], eocs + 1))
  {
    if Contents(read, s[n..]).Some? {
      OpenedAndClosed(read, s, n, eocs, Contents(read, s[n..]).value);
    } else {
      FirstLevel(read, s[n..], eocs + 1);
      assert Element(read, s).None? && Contents(read, s).None?;
    }
  }

  /** One turn of the loop. */
  ghost predicate Turn(read: Reader, s: seq<Byte>, eocs: nat, skip: nat, eocs': nat) {
    if Eoc(s) then skip == 2 && eocs' == eocs - 1
    else
      && s != [] && read(s).Some?
      && var h := read(s).value;
         if h.inf then skip == h.size && eocs' == eocs + 1 else skip == h.size + h.length && eocs' == eocs
  }

  lemma CountTurn(read: Reader, s: seq<Byte>, eocs: nat, skip: nat, eocs': nat)
    requires Sound(read) && eocs > 0 && eocs' > 0 && skip <= |s| && Turn(read, s, eocs, skip, eocs')
    ensures Counting(read, s, eocs) == Plus(skip, Counting(read, s[skip..], eocs'))
  {
  }

  lemma CountNext(read: Reader, s: seq<Byte>, p: nat, eocs: nat, skip: nat, eocs': nat)
    requires Sound(read) && eocs > 0 && eocs' > 0 && p + skip <= |s| && Turn(read, s[p..], eocs, skip, eocs')
    ensures Plus(p, Counting(read, s[p..], eocs)) == Plus(p + skip, Counting(read, s[p + skip..], eocs'))
  {
    CountTurn(read, s[p..], eocs, skip, eocs');
    assert s[p..][skip..] == s[p + skip..];
  }

  lemma CountStops(read: Reader, s: seq<Byte>, eocs: nat)
    requires Sound(read) && eocs > 0
    ensures Eoc(s) && eocs == 1 ==> Counting(read, s, eocs) == Some(2)
    ensures s == [] || (!Eoc(s) && read(s).None?) ==> Counting(read, s, eocs) == None
  {
  }

  /** What is left to find at position `p`. */
  function From(read: Reader, s: seq<Byte>, p: nat, eocs: nat): Option<nat>
    requires Sound(read) && p <= |s|
  {
    if eocs == 0 then Some(p) else Plus(p, Counting(read, s[p..], eocs))
  }

  /** The body of the loop: how far to move on and how many ends to expect then. */
  method ScanTurn(read: Reader, s: seq<Byte>, p: nat, expected: nat) returns (ok: bool, skip: nat, more: nat)
    requires Sound(read) && p < |s| && expected > 0
    ensures ok ==> 2 <= skip <= |s| - p
    ensures From(read, s, p, expected) == if ok then From(read, s, p + skip, more) else None
  {
    CountStops(read, s[p..], expected);
    if |s| - p >= 2 && s[p] == 0 && s[p + 1] == 0 {
      ok, skip, more := true, 2, expected - 1;
    } else {
      var head := read(s[p..]);
      if head.None? {
        return false, 0, 0;
      }
      var h := head.value;
      ok, skip, more := true, if h.inf then h.size else h.size + h.length, if h.inf then expected + 1 else expected;
    }
    if more > 0 {
      CountNext(read, s, p, expected, skip, more);
    }
  }

  /** The loop: it accepts what the grammar accepts and stops at the same octet. */
  method CountEnds(read: Reader, s: seq<Byte>) returns (end: Option<nat>)
    requires Sound(read)
    ensures end == Contents(read, s)
  {
    ghost var goal := Contents(read, s);
    CountingFollowsGrammar(read, s, 1);
    var p: nat, expected: nat := 0, 1;
    assert s[0..] == s;
    while p < |s|
      invariant p <= |s| && expected > 0
      invariant goal == From(read, s, p, expected)
    {
      var ok, skip, more := ScanTurn(read, s, p, expected);
      if !ok {
        return None;
      }
      p, expected := p + skip, more;
      if expected == 0 {
        return Some(p);
      }
    }
    CountStops(read, s[p..], expected);
    return None;
  }

  /** `asn1_find_end`. */
  method FindEnd(s: seq<Byte>, len: nat, inf: bool) returns (end: Option<nat>)
    requires len <= |s|
    ensures Sound(AnyTag)
    ensures end == if inf then Contents(AnyTag, s[..len]) else Some(len)
    ensures end.Some? ==> end.value <= len
  {
    if !inf {
      end := Some(len);
    } else {
      end := CountEnds(AnyTag, s[..len]);
    }
  }

  // ---- constructed strings ----

  const ASN1_MAX_STRING_NEST: nat := 5

  /** A string type as nested on the wire. */
  datatype Str = Leaf(content: seq<Byte>) | Node(parts: seq<Str>)

  type Strs = Option<(seq<Str>, nat)>
  type Octets = Option<(seq<Byte>, nat)>

  /** How an element and what follows it make up contents, for strings and for collected octets. */
  function JoinParts(item: Option<(Str, nat)>, rest: Strs): Strs {
    if item.None? || rest.None? then None
    else Some(([item.value.0] + rest.value.0, item.value.1 + rest.value.1))
  }

  function JoinOctets(item: Octets, rest: Octets): Octets {
    if item.None? || rest.None? then None
    else Some((item.value.0 + rest.value.0, item.value.1 + rest.value.1))
  }

  /** The contents `s`, of definite or indefinite length, as a list of strings, and the octets that takes. */
  function Parts(read: Reader, s: seq<Byte>, inf: bool): (r: Option<(seq<Str>, nat)>)
    requires Sound(read)
    ensures r.Some? ==> r.value.1 <= |s| && (!inf ==> r.value.1 == |s|)
    decreases |s|
  {
    if s == [] then if inf then None else Some(([], 0))
    else if Eoc(s) then if inf then Some(([], 2)) else None
    else
      var item := Part(read, s);
      if item.None? then None
      else
        JoinParts(item, Parts(read, s[item.value.1..], inf))
  }

  function Part(read: Reader, s: seq<Byte>): (r: Option<(Str, nat)>)
    requires Sound(read)
    ensures r.Some? ==> 2 <= r.value.1 <= |s|
    decreases |s|, 0
  {
    if s == [] || read(s).None? then None
    else
      var h := read(s).value;
      var body := s[h.size..h.size + h.length];
      if !h.constructed then Some((Leaf(body), h.size + h.length))
      else
        var inner := Parts(read, body, h.inf);
        if inner.None? then None else Some((Node(inner.value.0), h.size + inner.value.1))
  }

  /** The leaf contents in order. */
  function LeavesOf(item: Str): seq<Byte> {
    match item
    case Leaf(content) => content
    case Node(parts) => Leaves(parts)
  }

  function Leaves(parts: seq<Str>): seq<Byte> {
    if parts == [] then [] else LeavesOf(parts[0]) + Leaves(parts[1..])
  }

  function DepthOf(item: Str): nat {
    match item
    case Leaf(_) => 0
    case Node(parts) => 1 + Depth(parts)
  }

  function Depth(parts: seq<Str>): nat {
    if parts == [] then 0
    else
      var first, rest := DepthOf(parts[0]), Depth(parts[1..]);
      if first >= rest then first else rest
  }

  /** The recursion and loop of `asn1_collect`, given a buffer. */
  function Collecting(read: Reader, s: seq<Byte>, inf: bool, depth: nat): (r: Option<(seq<Byte>, nat)>)
    requires Sound(read)
    ensures r.Some? ==> r.value.1 <= |s|
    decreases |s|
  {
    if s == [] then if inf then None else Some(([], 0))
    else if Eoc(s) then if inf then Some(([], 2)) else None
    else
      var item := CollectItem(read, s, depth);
      if item.None? then None
      else
        JoinOctets(item, Collecting(read, s[item.value.1..], inf, depth))
  }

  /** What one element contributes, and its size. */
  function CollectItem(read: Reader, s: seq<Byte>, depth: nat): (r: Option<(seq<Byte>, nat)>)
    requires Sound(read)
    ensures r.Some? ==> 2 <= r.value.1 <= |s|
    decreases |s|, 0
  {
    if s == [] || read(s).None? then None
    else
      var h := read(s).value;
      var body := s[h.size..h.size + h.length];
      if !h.constructed then Some((body, h.size + h.length))
      else if depth >= ASN1_MAX_STRING_NEST then None
      else
        var inner := Collecting(read, body, h.inf, depth + 1);
        if inner.None? then None else Some((inner.value.0, h.size + inner.value.1))
  }

  /** What collecting makes of parsed contents: all leaves, or nothing when they are nested too deep. */
  function Harvest(p: Option<(seq<Str>, nat)>, depth: nat): Option<(seq<Byte>, nat)> {
    if p.None? || depth + Depth(p.value.0) > ASN1_MAX_STRING_NEST then None
    else Some((Leaves(p.value.0), p.value.1))
  }

  function HarvestItem(p: Option<(Str, nat)>, depth: nat): Option<(seq<Byte>, nat)> {
    if p.None? || depth + DepthOf(p.value.0) > ASN1_MAX_STRING_NEST then None
    else Some((LeavesOf(p.value.0), p.value.1))
  }

  lemma PartsUnfolded(read: Reader, s: seq<Byte>, inf: bool, n: nat)
    requires Sound(read) && s != [] && !Eoc(s) && n <= |s|
    requires Part(read, s).Some? ==> n == Part(read, s).value.1
    ensures Parts(read, s, inf) == JoinParts(Part(read, s), Parts(read, s[n..], inf))
  {
  }

  lemma CollectingUnfolded(read: Reader, s: seq<Byte>, inf: bool, depth: nat, n: nat)
    requires Sound(read) && s != [] && !Eoc(s) && n <= |s|
    requires CollectItem(read, s, depth).Some? ==> n == CollectItem(read, s, depth).value.1
    ensures Collecting(read, s, inf, depth) ==
            JoinOctets(CollectItem(read, s, depth), Collecting(read, s[n..], inf, depth))
  {
  }

  lemma HarvestCons(item: Str, n: nat, rest: seq<Str>, m: nat, depth: nat)
    ensures var a, b := HarvestItem(Some((item, n)), depth), Harvest(Some((rest, m)), depth);
            Harvest(Some(([item] + rest, n + m)), depth) ==
              if a.None? || b.None? then None else Some((a.value.0 + b.value.0, n + m))
  {
    var parts := [item] + rest;
    assert parts[0] == item && parts[1..] == rest;
  }

  /** The content of the first element. */
  function Body(read: Reader, s: seq<Byte>): (body: seq<Byte>)
    requires Sound(read) && s != []
    ensures |body| < |s|
  {
    if read(s).None? then [] else s[read(s).value.size..read(s).value.size + read(s).value.length]
  }

  lemma ItemFromBody(read: Reader, s: seq<Byte>, body: seq<Byte>, inf: bool, depth: nat)
    requires Sound(read) && depth <= ASN1_MAX_STRING_NEST && s != [] && body == Body(read, s)
    requires read(s).Some? ==> inf == read(s).value.inf
    requires depth < ASN1_MAX_STRING_NEST ==>
      Collecting(read, body, inf, depth + 1) == Harvest(Parts(read, body, inf), depth + 1)
    ensures CollectItem(read, s, depth) == HarvestItem(Part(read, s), depth)
  {
  }

  lemma HarvestJoin(item: Option<(Str, nat)>, rest: Strs, depth: nat)
    ensures Harvest(JoinParts(item, rest), depth) == JoinOctets(HarvestItem(item, depth), Harvest(rest, depth))
  {
    if item.Some? && rest.Some? {
      HarvestCons(item.value.0, item.value.1, rest.value.0, rest.value.1, depth);
    }
  }

  lemma NextYieldsLeaves(read: Reader, s: seq<Byte>, inf: bool, depth: nat, n: nat)
    requires Sound(read) && s != [] && !Eoc(s) && n <= |s|
    requires CollectItem(read, s, depth) == HarvestItem(Part(read, s), depth)
    requires Part(read, s).Some? ==> n == Part(read, s).value.1
    requires Collecting(read, s[n..], inf, depth) == Harvest(Parts(read, s[n..], inf), depth)
    ensures Collecting(read, s, inf, depth) == Harvest(Parts(read, s, inf), depth)
  {
    PartsUnfolded(read, s, inf, n);
    CollectingUnfolded(read, s, inf, depth, n);
    HarvestJoin(Part(read, s), Parts(read, s[n..], inf), depth);
  }

  lemma EndYieldsLeaves(read: Reader, s: seq<Byte>, inf: bool, depth: nat)
    requires Sound(read) && depth <= ASN1_MAX_STRING_NEST && (s == [] || Eoc(s))
    ensures Collecting(read, s, inf, depth) == Harvest(Parts(read, s, inf), depth)
  {
  }

  /**
   * Collecting succeeds exactly on strings nested no deeper than the limit allows, and
   * yields the concatenation of their leaf contents.
   */
  lemma {:induction false} CollectingYieldsLeaves(read: Reader, s: seq<Byte>, inf: bool, depth: nat)
    requires Sound(read) && depth <= ASN1_MAX_STRING_NEST
    ensures Collecting(read, s, inf, depth) == Harvest(Parts(read, s, inf), depth)
    decreases |s|
  {
    if s == [] || Eoc(s) {
      EndYieldsLeaves(read, s, inf, depth);
    } else {
      ItemYieldsLeaves(read, s, depth);
      var n := if Part(read, s).Some? then Part(read, s).value.1 else 1;
      CollectingYieldsLeaves(read, s[n..], inf, depth);
      NextYieldsLeaves(read, s, inf, depth, n);
    }
  }

  lemma {:induction false} ItemYieldsLeaves(read: Reader, s: seq<Byte>, depth: nat)
    requires Sound(read) && depth <= ASN1_MAX_STRING_NEST && s != []
    ensures CollectItem(read, s, depth) == HarvestItem(Part(read, s), depth)
    decreases |s|, 0
  {
    var body, inf := Body(read, s), read(s).Some? && read(s).value.inf;
    if depth < ASN1_MAX_STRING_NEST {
      CollectingYieldsLeaves(read, body, inf, depth + 1);
    }
    ItemFromBody(read, s, body, inf, depth);
  }

  /** A buffer with the collected octets behind it, `n` octets further on. */
  function Behind(buf: seq<Byte>, n: nat, r: Octets): Octets {
    if r.None? then None else Some((buf + r.value.0, n + r.value.1))
  }

  lemma BehindJoin(buf: seq<Byte>, p: nat, item: Octets, rest: Octets)
    ensures Behind(buf, p, JoinOctets(item, rest)) ==
            if item.None? then None else Behind(buf + item.value.0, p + item.value.1, rest)
  {
    if item.Some? && rest.Some? {
      assert buf + (item.value.0 + rest.value.0) == buf + item.value.0 + rest.value.0;
    }
  }

  lemma BehindHeader(buf: seq<Byte>, size: nat, inner: Octets)
    ensures var r := Behind(buf, 0, inner);
            Behind(buf, 0, if inner.None? then None else Some((inner.value.0, size + inner.value.1))) ==
            if r.None? then None else Some((r.value.0, size + r.value.1))
  {
  }

  /** What collecting goes on to do at position `p` with `buf` so far. */
  function CollectFrom(read: Reader, buf: seq<Byte>, s: seq<Byte>, p: nat, inf: bool, depth: nat): Octets
    requires Sound(read) && p <= |s|
  {
    Behind(buf, p, Collecting(read, s[p..], inf, depth))
  }

  lemma CollectNext(read: Reader, buf: seq<Byte>, s: seq<Byte>, p: nat, inf: bool, depth: nat, n: nat)
    requires Sound(read) && p < |s| && !Eoc(s[p..]) && p + n <= |s|
    requires CollectItem(read, s[p..], depth).Some? ==> n == CollectItem(read, s[p..], depth).value.1
    ensures var item := CollectItem(read, s[p..], depth);
            CollectFrom(read, buf, s, p, inf, depth) ==
              if item.None? then None else CollectFrom(read, buf + item.value.0, s, p + n, inf, depth)
  {
    CollectingUnfolded(read, s[p..], inf, depth, n);
    assert s[p..][n..] == s[p + n..];
    BehindJoin(buf, p, CollectItem(read, s[p..], depth), Collecting(read, s[p + n..], inf, depth));
  }

  /** The body of the loop of `asn1_collect`: a leaf is copied, a constructed element collected in turn. */
  method CollectOne(read: Reader, buf: seq<Byte>, s: seq<Byte>, depth: nat) returns (r: Octets)
    requires Sound(read) && s != []
    ensures r == Behind(buf, 0, CollectItem(read, s, depth))
    decreases |s|, 1
  {
    var head := read(s);
    if head.None? {
      return None;
    }
    if !head.value.constructed {
      r := CollectLeaf(read, buf, s, head.value, depth);
    } else {
      r := CollectInner(read, buf, s, head.value, depth);
    }
  }

  method CollectLeaf(read: Reader, buf: seq<Byte>, s: seq<Byte>, h: Head, ghost depth: nat) returns (r: Octets)
    requires Sound(read) && s != [] && read(s) == Some(h) && !h.constructed
    ensures r == Behind(buf, 0, CollectItem(read, s, depth))
  {
    return Some((buf + s[h.size..h.size + h.length], h.size + h.length));
  }

  method CollectInner(read: Reader, buf: seq<Byte>, s: seq<Byte>, h: Head, depth: nat) returns (r: Octets)
    requires Sound(read) && s != [] && read(s) == Some(h) && h.constructed
    ensures r == Behind(buf, 0, CollectItem(read, s, depth))
    decreases |s|, 0
  {
    if depth >= ASN1_MAX_STRING_NEST {
      return None;
    }
    var body := s[h.size..h.size + h.length];
    r := Collect(read, buf, body, h.inf, depth + 1);
    ghost var inner := Collecting(read, body, h.inf, depth + 1);
    InnerBehind(read, buf, s, h, depth, inner);
    if r.Some? {
      r := Some((r.value.0, h.size + r.value.1));
    }
  }

  lemma InnerBehind(read: Reader, buf: seq<Byte>, s: seq<Byte>, h: Head, depth: nat, inner: Octets)
    requires Sound(read) && s != [] && read(s) == Some(h) && h.constructed && depth < ASN1_MAX_STRING_NEST
    requires inner == Collecting(read, s[h.size..h.size + h.length], h.inf, depth + 1)
    ensures var r := Behind(buf, 0, inner);
            Behind(buf, 0, CollectItem(read, s, depth)) == if r.Some? then Some((r.value.0, h.size + r.value.1)) else None
  {
    InnerItem(read, s, h, depth);
    BehindHeader(buf, h.size, inner);
  }

  lemma InnerItem(read: Reader, s: seq<Byte>, h: Head, depth: nat)
    requires Sound(read) && s != [] && read(s) == Some(h) && h.constructed && depth < ASN1_MAX_STRING_NEST
    ensures var inner := Collecting(read, s[h.size..h.size + h.length], h.inf, depth + 1);
            CollectItem(read, s, depth) == if inner.None? then None else Some((inner.value.0, h.size + inner.value.1))
  {
  }

  lemma BehindEnd(read: Reader, buf: seq<Byte>, s: seq<Byte>, p: nat, inf: bool, depth: nat)
    requires Sound(read) && p <= |s| && (p == |s| || Eoc(s[p..]))
    ensures CollectFrom(read, buf, s, p, inf, depth) ==
            if p == |s| then if inf then None else Some((buf, p)) else if inf then Some((buf, p + 2)) else None
  {
    assert buf + [] == buf;
  }

  /** `asn1_collect`. */
  method Collect(read: Reader, buf: seq<Byte>, s: seq<Byte>, inf: bool, depth: nat) returns (r: Octets)
    requires Sound(read)
    ensures r == Behind(buf, 0, Collecting(read, s, inf, depth))
    decreases |s|, 2
  {
    var out, p: nat := buf, 0;
    assert s[0..] == s;
    ghost var goal := CollectFrom(read, buf, s, 0, inf, depth);
    while p < |s|
      invariant p <= |s| && goal == CollectFrom(read, out, s, p, inf, depth)
    {
      if |s| - p >= 2 && s[p] == 0 && s[p + 1] == 0 {
        BehindEnd(read, out, s, p, inf, depth);
        return if inf then Some((out, p + 2)) else None;
      }
      var item := CollectOne(read, out, s[p..], depth);
      CollectNext(read, out, s, p, inf, depth, if item.Some? then item.value.1 else 0);
      if item.None? {
        return None;
      }
      out, p := item.value.0, p + item.value.1;
    }
    BehindEnd(read, out, s, p, inf, depth);
    return if inf then None else Some((out, p));
  }

  /** As the decoder of string types calls it: from the top, with any tag allowed inside. */
  method CollectString(s: seq<Byte>, inf: bool) returns (r: Octets)
    ensures Sound(AnyTag)
    ensures r == Harvest(Parts(AnyTag, s, inf), 0)
  {
    r := Collect(AnyTag, [], s, inf, 0);
    CollectingYieldsLeaves(AnyTag, s, inf, 0);
    var c := Collecting(AnyTag, s, inf, 0);
    assert c.Some? ==> [] + c.value.0 == c.value.0;
  }
}
