/** The version stamp `UuidST`: a pair (method UUID, data UUID).

    The method UUID (a random version 4 UUID, section 5.4 of RFC 9562) names one unbroken run of
    data UUIDs. The data UUID (a time-ordered version 7 UUID, section 5.7 of RFC 9562) is replaced on
    every increment; when the clock yields a value that is not above the stored one, a new method
    UUID is minted, starting a new run. The generators are not modelled: the freshly generated
    values are parameters of the operations that use them.
 */
module SharedTypes {
  import opened LexOrder
  import opened Base32Hex

  /** A UUID as its 16 bytes, in the order `Uuid::as_bytes` gives them. */
  type Uuid = s: seq<Byte> | |s| == 16 witness [0, 0, 0, 0, 0, 0, 0, 0, 0, 0, 0, 0, 0, 0, 0, 0]

  /** The 128-bit number a UUID denotes, first byte most significant. */
  function UuidValue(u: Uuid): (n: nat)
    ensures n < Pow2(128)
  {
    BitsValueBound(BytesToBits(u));
    BitsValue(BytesToBits(u))
  }

  /** The order of `Uuid`: lexicographic over its bytes, which is numeric order of the 128-bit value. */
  function UuidLess(u: Uuid, v: Uuid): (b: bool)
    ensures b <==> UuidValue(u) < UuidValue(v)
  {
    BytesToBitsOrder(u, v);
    BitsOrder(BytesToBits(u), BytesToBits(v));
    LexLess(u, v)
  }

  /** The value of a stamp, as `get` returns it and as the derived comparisons see it. */
  datatype Stamp = Stamp(methodUuid: Uuid, dataUuid: Uuid)

  /** The derived `Ord` of `UuidST`: fields compared in declaration order, which is the byte order
      of the two UUIDs laid end to end. */
  function StampLess(s: Stamp, t: Stamp): (b: bool)
    ensures b <==> LexLess(s.methodUuid + s.dataUuid, t.methodUuid + t.dataUuid)
  {
    LexAppend(s.methodUuid, s.dataUuid, t.methodUuid, t.dataUuid);
    UuidLess(s.methodUuid, t.methodUuid)
    || (s.methodUuid == t.methodUuid && UuidLess(s.dataUuid, t.dataUuid))
  }

  /** The text form of a UUID: 26 characters of unpadded base32hex. */
  function ShortUuidString(u: Uuid): (s: string)
    ensures |s| == 26
    ensures forall i :: 0 <= i < |s| ==> s[i] in Alphabet
  {
    Encode(u)
  }

  /** The stamp `increment` produces from `s`, given the clock's new value and a freshly minted random UUID
      (used only when the clock did not move forward). */
  function Incremented(s: Stamp, newData: Uuid, freshMethod: Uuid): (r: Stamp)
    ensures r.dataUuid == newData
    ensures UuidLess(s.dataUuid, newData) ==> r.methodUuid == s.methodUuid
    ensures !UuidLess(s.dataUuid, newData) ==> r.methodUuid == freshMethod
  {
    LexTrichotomy(s.dataUuid, newData);
    if UuidLess(newData, s.dataUuid) || newData == s.dataUuid then Stamp(freshMethod, newData)
    else Stamp(s.methodUuid, newData)
  }

  /** The stamps seen after each of a series of increments. */
  function IncrementRun(s: Stamp, clock: seq<Uuid>, minted: seq<Uuid>): (r: seq<Stamp>)
    requires |clock| == |minted|
    ensures |r| == |clock|
    ensures forall i :: 0 <= i < |r| ==> r[i].dataUuid == clock[i]
    decreases |clock|
  {
    if clock == [] then []
    else
      var next := Incremented(s, clock[0], minted[0]);
      [next] + IncrementRun(next, clock[1..], minted[1..])
  }

  /** Each clock value is above the one before it, the first above `start`. */
  predicate ClockAdvances(start: Uuid, clock: seq<Uuid>)
  {
    (clock != [] ==> UuidLess(start, clock[0]))
    && forall i :: 0 < i < |clock| ==> UuidLess(clock[i - 1], clock[i])
  }

  class UuidST {
    var methodUuid: Uuid
    var dataUuid: Uuid

    /** `new`: both UUIDs are the generators' new values. */
    constructor (freshMethod: Uuid, freshData: Uuid)
      ensures methodUuid == freshMethod && dataUuid == freshData
    {
      methodUuid := freshMethod;
      dataUuid := freshData;
    }

    /** `get`: the pair, read without side effects. */
    function Get(): (r: Stamp)
      reads this
      ensures r.methodUuid == methodUuid && r.dataUuid == dataUuid
    {
      Stamp(methodUuid, dataUuid)
    }

    /** `set`: adopt both UUIDs of another stamp (which may be this one). */
    method Set(other: UuidST)
      modifies this
      ensures Get() == old(other.Get())
      ensures other.Get() == old(other.Get())
    {
      methodUuid := other.methodUuid;
      dataUuid := other.dataUuid;
    }

    /** `increment`: store the clock's new value; start a new run when it is not above the old one. */
    method Increment(newData: Uuid, freshMethod: Uuid)
      modifies this
      ensures Get() == Incremented(old(Get()), newData, freshMethod)
      ensures dataUuid == newData
      ensures UuidLess(old(dataUuid), newData) ==> methodUuid == old(methodUuid)
      ensures !UuidLess(old(dataUuid), newData) ==> methodUuid == freshMethod
    {
      LexTrichotomy(dataUuid, newData);
      if UuidLess(newData, dataUuid) || newData == dataUuid {
        methodUuid := freshMethod;
      }
      dataUuid := newData;
    }

    /** `get_method_uuid`: the text form of the method UUID. */
    function GetMethodUuid(): (s: string)
      reads this
      ensures s == ShortUuidString(methodUuid)
      ensures |s| == 26
      ensures forall i :: 0 <= i < |s| ==> s[i] in Alphabet
    {
      ShortUuidString(methodUuid)
    }

    /** `get_data_uuid`: the text form of the data UUID. */
    function GetDataUuid(): (s: string)
      reads this
      ensures s == ShortUuidString(dataUuid)
      ensures |s| == 26
      ensures forall i :: 0 <= i < |s| ==> s[i] in Alphabet
    {
      ShortUuidString(dataUuid)
    }
  }

  // ---------------------------------------------------------------- the text form

  /** The text form orders UUIDs exactly as their bytes do. */
  lemma ShortUuidOrder(u: Uuid, v: Uuid)
    ensures UuidLess(u, v) <==> StrLess(ShortUuidString(u), ShortUuidString(v))
  {
    EncodeOrder(u, v);
  }

  /** Equal UUIDs give equal strings and distinct UUIDs distinct strings. */
  lemma ShortUuidInjective(u: Uuid, v: Uuid)
    ensures u == v <==> ShortUuidString(u) == ShortUuidString(v)
  {
    if ShortUuidString(u) == ShortUuidString(v) {
      EncodeInjective(u, v);
    }
  }

  // ---------------------------------------------------------------- the derived ordering

  /** The derived order is a strict total order. */
  lemma StampTotal(s: Stamp, t: Stamp)
    ensures s == t || StampLess(s, t) || StampLess(t, s)
    ensures !StampLess(s, s)
    ensures !(StampLess(s, t) && StampLess(t, s))
  {
    LexTrichotomy(s.methodUuid, t.methodUuid);
    LexTrichotomy(s.dataUuid, t.dataUuid);
    LexIrreflexive(s.dataUuid);
    LexIrreflexive(s.methodUuid);
  }

  lemma StampTransitive(s: Stamp, t: Stamp, w: Stamp)
    requires StampLess(s, t) && StampLess(t, w)
    ensures StampLess(s, w)
  {
    if UuidLess(s.methodUuid, t.methodUuid) && UuidLess(t.methodUuid, w.methodUuid) {
      LexTransitive(s.methodUuid, t.methodUuid, w.methodUuid);
    } else if s.methodUuid == t.methodUuid == w.methodUuid {
      LexTransitive(s.dataUuid, t.dataUuid, w.dataUuid);
    }
  }

  // ---------------------------------------------------------------- increment

  /** Clock moved forward: same run, the stamp and the data UUID's text both grow. */
  lemma IncrementAdvances(s: Stamp, newData: Uuid, freshMethod: Uuid)
    requires UuidLess(s.dataUuid, newData)
    ensures Incremented(s, newData, freshMethod).methodUuid == s.methodUuid
    ensures StampLess(s, Incremented(s, newData, freshMethod))
    ensures StrLess(ShortUuidString(s.dataUuid), ShortUuidString(Incremented(s, newData, freshMethod).dataUuid))
  {
    LexTrichotomy(s.dataUuid, newData);
    ShortUuidOrder(s.dataUuid, newData);
  }

  /** Clock did not move forward: the newly minted method UUID starts a new run with the new data UUID,
      and whether the new stamp is above the old one is decided by the minted UUID alone. */
  lemma IncrementResyncs(s: Stamp, newData: Uuid, freshMethod: Uuid)
    requires !UuidLess(s.dataUuid, newData)
    ensures Incremented(s, newData, freshMethod) == Stamp(freshMethod, newData)
    ensures StampLess(s, Incremented(s, newData, freshMethod)) <==> UuidLess(s.methodUuid, freshMethod)
  {
  }

  lemma ClockAdvancesTail(start: Uuid, clock: seq<Uuid>)
    requires clock != [] && ClockAdvances(start, clock)
    ensures ClockAdvances(clock[0], clock[1..])
  {
    if |clock| > 1 {
      assert UuidLess(clock[0], clock[1]);
    }
    forall i | 0 < i < |clock[1..]|
      ensures UuidLess(clock[1..][i - 1], clock[1..][i])
    {
      assert UuidLess(clock[i], clock[i + 1]);
    }
  }

  /** With an advancing clock, the stamp after the i-th increment still has the initial method UUID. */
  lemma {:induction false} RunKeepsMethod(s: Stamp, clock: seq<Uuid>, minted: seq<Uuid>, i: nat)
    requires |clock| == |minted| && ClockAdvances(s.dataUuid, clock) && i < |clock|
    ensures IncrementRun(s, clock, minted)[i].methodUuid == s.methodUuid
    decreases i
  {
    assert UuidLess(s.dataUuid, clock[0]);
    var next := Incremented(s, clock[0], minted[0]);
    var rest := IncrementRun(next, clock[1..], minted[1..]);
    assert IncrementRun(s, clock, minted) == [next] + rest;
    if i > 0 {
      ClockAdvancesTail(s.dataUuid, clock);
      RunKeepsMethod(next, clock[1..], minted[1..], i - 1);
      assert IncrementRun(s, clock, minted)[i] == rest[i - 1];
    }
  }

  /** A series of increments with an advancing clock stays in one run, and every stamp, and the text
      of every data UUID, is above the one before it. */
  lemma MonotoneRun(s: Stamp, clock: seq<Uuid>, minted: seq<Uuid>)
    requires |clock| == |minted| && ClockAdvances(s.dataUuid, clock)
    ensures forall i :: 0 <= i < |clock| ==> IncrementRun(s, clock, minted)[i].methodUuid == s.methodUuid
    ensures clock != [] ==> StampLess(s, IncrementRun(s, clock, minted)[0])
    ensures forall i :: 0 < i < |clock| ==> StampLess(IncrementRun(s, clock, minted)[i - 1], IncrementRun(s, clock, minted)[i])
    ensures clock != [] ==> StrLess(ShortUuidString(s.dataUuid), ShortUuidString(clock[0]))
    ensures forall i :: 0 < i < |clock| ==> StrLess(ShortUuidString(clock[i - 1]), ShortUuidString(clock[i]))
  {
    var run := IncrementRun(s, clock, minted);
    forall i | 0 <= i < |clock|
      ensures run[i] == Stamp(s.methodUuid, clock[i])
    {
      RunKeepsMethod(s, clock, minted, i);
    }
    if clock != [] {
      ShortUuidOrder(s.dataUuid, clock[0]);
    }
    forall i | 0 < i < |clock|
      ensures StampLess(run[i - 1], run[i])
      ensures StrLess(ShortUuidString(clock[i - 1]), ShortUuidString(clock[i]))
    {
      assert UuidLess(clock[i - 1], clock[i]);
      ShortUuidOrder(clock[i - 1], clock[i]);
    }
  }

  /** The data UUID strings of two stamps compare as the data UUIDs do. */
  lemma DataUuidStringsOrdered(a: UuidST, b: UuidST)
    ensures UuidLess(a.dataUuid, b.dataUuid) <==> StrLess(a.GetDataUuid(), b.GetDataUuid())
  {
    ShortUuidOrder(a.dataUuid, b.dataUuid);
  }
}
