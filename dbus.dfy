/** The single-instance protocol of `gedit/gedit-dbus.c`: the startup
    timestamp read from DESKTOP_STARTUP_ID, the optional parameters of an
    "Open" call, the wait ids a waiting "Open" hands out, the count of
    objects a waiting call still waits for, and the client quitting on its
    own WaitDone signal. */
module GeditDBus {
  import opened Common
  import GeditSearchEntry

  /** One more than the largest `guint32`. */
  const Uint32Modulus: nat := 0x1_0000_0000

  /** The largest `gulong` (64 bits). */
  const ULongMax: nat := 0xFFFF_FFFF_FFFF_FFFF

  // ---------------------------------------------------------------------
  // g_strrstr

  /** `pat` occurs in `s` at offset `j`. */
  predicate OccursAt(s: string, pat: string, j: nat)
  {
    j + |pat| <= |s| && s[j..j + |pat|] == pat
  }

  /** The last offset at or below `k` where `pat` occurs in `s`
      (`g_strrstr` when started at `|s|`). */
  function LastOccurrence(s: string, pat: string, k: nat): (r: Option<nat>)
    ensures r.Some? ==> r.value <= k && OccursAt(s, pat, r.value)
    ensures r.Some? ==> forall j :: r.value < j <= k ==> !OccursAt(s, pat, j)
    ensures r.None? ==> forall j :: 0 <= j <= k ==> !OccursAt(s, pat, j)
  {
    if OccursAt(s, pat, k) then Some(k)
    else if k == 0 then None
    else LastOccurrence(s, pat, k - 1)
  }

  // ---------------------------------------------------------------------
  // strtoul with base 0

  /** The value of a letter or digit in bases up to 36. */
  function AlnumValue(c: char): Option<nat>
  {
    if '0' <= c <= '9' then Some(c as int - '0' as int)
    else if 'a' <= c <= 'z' then Some(c as int - 'a' as int + 10)
    else if 'A' <= c <= 'Z' then Some(c as int - 'A' as int + 10)
    else None
  }

  predicate IsDigitIn(c: char, base: nat)
  {
    AlnumValue(c).Some? && AlnumValue(c).value < base
  }

  /** How many characters at the front of `s` are digits in `base`. */
  function RunLength(s: string, base: nat): (n: nat)
    ensures n <= |s| && forall i :: 0 <= i < n ==> IsDigitIn(s[i], base)
    ensures n < |s| ==> !IsDigitIn(s[n], base)
  {
    if s != [] && IsDigitIn(s[0], base) then 1 + RunLength(s[1..], base) else 0
  }

  /** The number the digits `d` denote in `base`. */
  function RunValue(d: string, base: nat): nat
    requires forall i :: 0 <= i < |d| ==> IsDigitIn(d[i], base)
  {
    if d == [] then 0
    else
      var high := RunValue(d[..|d| - 1], base);
      NatProduct(base, high);
      base * high + DigitOf(d[|d| - 1], base)
  }

  lemma NatProduct(a: nat, b: nat)
    ensures a * b >= 0
  {
  }

  function DigitOf(c: char, base: nat): nat
    requires IsDigitIn(c, base)
  {
    AlnumValue(c).value
  }

  /** What `strtoul(s, &end, 0)` gives: the value, the offset `end` points
      at (0 when nothing was converted) and whether `errno` was set to
      ERANGE. */
  datatype Conversion = Conversion(value: nat, end: nat, rangeError: bool)

  /** The base `strtoul` picks for base 0 at offset `j` and where the
      digits start: "0x" or "0X" before a hexadecimal digit means 16, a
      leading 0 means 8, anything else 10. */
  function BaseAt(s: string, j: nat): (r: (nat, nat))
    ensures j <= r.1 && (r.0 == 8 || r.0 == 10 || r.0 == 16)
    ensures r.1 <= |s| || r.1 == j
  {
    if j + 2 < |s| && s[j] == '0' && (s[j + 1] == 'x' || s[j + 1] == 'X') && IsDigitIn(s[j + 2], 16) then (16, j + 2)
    else if j < |s| && s[j] == '0' then (8, j)
    else (10, j)
  }

  /** `strtoul` with base 0 on a 64-bit `gulong`: leading white space, an
      optional sign, the base prefix, then the digits; a value past the
      largest `gulong` is a range error, and a minus sign negates modulo
      2^64. */
  function StrToUL(s: string): (r: Conversion)
    ensures r.end == 0 ==> r.value == 0 && !r.rangeError
    ensures r.end <= |s|
    ensures r.value <= ULongMax
  {
    var i := GeditSearchEntry.SpacePrefix(s);
    var signed := i < |s| && (s[i] == '-' || s[i] == '+');
    var negative := i < |s| && s[i] == '-';
    var j := if signed then i + 1 else i;
    var (base, k) := BaseAt(s, j);
    if k > |s| then Conversion(0, 0, false)
    else
      var n := RunLength(s[k..], base);
      if n == 0 then Conversion(0, 0, false)
      else
        var m := RunValue(s[k..k + n], base);
        if m > ULongMax then Conversion(ULongMax, k + n, true)
        else if negative then Conversion((ULongMax + 1 - m) % (ULongMax + 1), k + n, false)
        else Conversion(m, k + n, false)
  }

  /** `get_startup_timestamp` (lines 205-244) given the value of
      DESKTOP_STARTUP_ID: the number after the last "_TIME", as `strtoul`
      reads it with base 0 and truncated to a `guint32`; 0 when the
      variable is unset, holds no "_TIME", nothing was converted or the
      number is out of range. */
  function StartupTimestamp(env: Option<string>): (r: nat)
    ensures r < Uint32Modulus
    ensures env.None? ==> r == 0
    ensures env.Some? && LastOccurrence(env.value, "_TIME", |env.value|).None? ==> r == 0
  {
    if env.None? then 0
    else
      var at := LastOccurrence(env.value, "_TIME", |env.value|);
      if at.None? then 0
      else
        TimestampAfter(env.value[at.value + 5..])
  }

  lemma {:induction false} DecimalFirstDigit(n: nat)
    requires n > 0
    ensures GeditSearchEntry.DecimalString(n)[0] != '0'
  {
    if n >= 10 {
      DecimalFirstDigit(n / 10);
    }
  }

  lemma {:induction false} DecimalRunValue(d: string)
    requires GeditSearchEntry.AllDigits(d)
    ensures forall i :: 0 <= i < |d| ==> IsDigitIn(d[i], 10)
    ensures RunValue(d, 10) == GeditSearchEntry.DigitsValue(d)
  {
    if d != [] {
      DecimalRunValue(d[..|d| - 1]);
    }
  }

  /** "_TIME" does not occur after `|prefix|` in `prefix + "_TIME" + d`
      when `d` is all digits. */
  lemma {:induction false} LastTimeMarker(prefix: string, d: string, k: nat)
    requires GeditSearchEntry.AllDigits(d)
    requires |prefix| <= k <= |prefix| + 5 + |d|
    ensures LastOccurrence(prefix + "_TIME" + d, "_TIME", k) == Some(|prefix|)
  {
    var s := prefix + "_TIME" + d;
    if k > |prefix| {
      if k + 5 <= |s| {
        if k < |prefix| + 5 {
          assert s[k] == "_TIME"[k - |prefix|];
        } else {
          assert s[k] == d[k - |prefix| - 5];
        }
        assert s[k..k + 5][0] == s[k];
      }
      LastTimeMarker(prefix, d, k - 1);
    } else {
      assert s[k..k + 5] == "_TIME";
    }
  }

  lemma {:induction false} RunOfDigits(d: string, base: nat)
    requires forall i :: 0 <= i < |d| ==> IsDigitIn(d[i], base)
    ensures RunLength(d, base) == |d|
  {
    if d != [] {
      RunOfDigits(d[1..], base);
    }
  }

  /** `strtoul` reads the decimal digits of a number back as that number. */
  lemma StrToULDecimal(n: nat)
    requires n <= ULongMax
    ensures StrToUL(GeditSearchEntry.DecimalString(n)) == Conversion(n, |GeditSearchEntry.DecimalString(n)|, false)
  {
    var d := GeditSearchEntry.DecimalString(n);
    assert GeditSearchEntry.IsDigit(d[0]);
    assert GeditSearchEntry.SpacePrefix(d) == 0;
    assert d[0..] == d && d[0..|d|] == d;
    if n > 0 {
      DecimalFirstDigit(n);
      assert BaseAt(d, 0) == (10, 0);
      DecimalRunValue(d);
      GeditSearchEntry.DecimalStringValue(n);
      RunOfDigits(d, 10);
    } else {
      assert d == "0";
      assert BaseAt(d, 0) == (8, 0);
      assert IsDigitIn(d[0], 8);
      RunOfDigits(d, 8);
      assert RunValue(d, 8) == 8 * RunValue([], 8) + DigitOf('0', 8);
    }
  }

  /** What follows the last "_TIME": the converted number truncated to a
      `guint32`, or 0 when nothing was converted or it is out of range. */
  function TimestampAfter(rest: string): (r: nat)
    ensures r < Uint32Modulus
  {
    var c := StrToUL(rest);
    if c.end == 0 || c.rangeError then 0 else c.value % Uint32Modulus
  }

  /** The decimal digits of a 32-bit number after the marker give that
      number back. */
  lemma TimestampAfterDecimal(n: nat)
    requires n < Uint32Modulus
    ensures TimestampAfter(GeditSearchEntry.DecimalString(n)) == n
  {
    StrToULDecimal(n);
    TimestampAfterConverted(GeditSearchEntry.DecimalString(n), n);
  }

  lemma TimestampAfterConverted(rest: string, n: nat)
    requires n < Uint32Modulus && rest != [] && StrToUL(rest) == Conversion(n, |rest|, false)
    ensures TimestampAfter(rest) == n
  {
  }

  /** A DESKTOP_STARTUP_ID ending in "_TIME" and the decimal digits of a
      32-bit number gives that number back. */
  lemma StartupTimestampDecimal(prefix: string, n: nat)
    requires n < Uint32Modulus
    ensures StartupTimestamp(Some(prefix + "_TIME" + GeditSearchEntry.DecimalString(n))) == n
  {
    var d := GeditSearchEntry.DecimalString(n);
    var s := prefix + "_TIME" + d;
    LastTimeMarker(prefix, d, |s|);
    assert s[|prefix| + 5..] == d;
    TimestampAfterDecimal(n);
  }

  /** Nothing a number can start with after the last "_TIME" gives 0. */
  lemma StartupTimestampNoNumber(prefix: string, rest: string)
    requires LastOccurrence(prefix + "_TIME" + rest, "_TIME", |prefix + "_TIME" + rest|) == Some(|prefix|)
    requires rest == [] || (AlnumValue(rest[0]).None? && !GeditSearchEntry.IsSpace(rest[0]) && rest[0] != '-' && rest[0] != '+')
    ensures StartupTimestamp(Some(prefix + "_TIME" + rest)) == 0
  {
    var s := prefix + "_TIME" + rest;
    assert s[|prefix| + 5..] == rest;
    assert rest != [] ==> GeditSearchEntry.SpacePrefix(rest) == 0;
  }

  // ---------------------------------------------------------------------
  // extract_optional_parameters

  /** The values an "Open" call's optional parameters hold. */
  datatype Variant = VBool(b: bool) | VInt(i: int) | VUint(u: nat) | VString(s: string)

  /** `extract_optional_parameters` (lines 1220-1253): `keys[k]` pairs with
      the output `outputs[k]`; every key found in the table stores its
      value in its output, a missing one leaves its output alone, and the
      answer says whether any key was found. */
  method ExtractOptionalParameters(parameters: map<string, Variant>, keys: seq<string>, outputs: seq<Variant>)
    returns (found: bool, values: seq<Variant>)
    requires |keys| == |outputs|
    ensures |values| == |outputs|
    ensures found <==> exists k :: 0 <= k < |keys| && keys[k] in parameters
    ensures forall k :: 0 <= k < |keys| ==>
      values[k] == (if keys[k] in parameters then parameters[keys[k]] else outputs[k])
  {
    found := false;
    values := outputs;
    for i := 0 to |keys|
      invariant |values| == |outputs|
      invariant found <==> exists k :: 0 <= k < i && keys[k] in parameters
      invariant forall k :: 0 <= k < i ==>
        values[k] == (if keys[k] in parameters then parameters[keys[k]] else outputs[k])
      invariant forall k :: i <= k < |keys| ==> values[k] == outputs[k]
    {
      if keys[i] !in parameters {
        continue;
      }
      found := true;
      values := values[i := parameters[keys[i]]];
    }
  }

  // ---------------------------------------------------------------------
  // Wait handlers

  /** The session bus, reduced to the wait ids of the WaitDone signals
      emitted on it. */
  class Bus {
    var waitDone: seq<nat>

    constructor ()
      ensures waitDone == []
    {
      waitDone := [];
    }
  }

  /** `WaitData` (lines 48-58): the id a waiting "Open" answered with, and
      the number of documents or windows it still waits for. `released`
      stands for `g_slice_free`: the wait function has run and the data
      is gone. */
  class WaitData {
    const bus: Bus
    const waitId: nat
    var numHandlers: nat
    var released: bool

    constructor (bus: Bus, waitId: nat)
      ensures this.bus == bus && this.waitId == waitId
      ensures numHandlers == 0 && !released
    {
      this.bus := bus;
      this.waitId := waitId;
      numHandlers := 0;
      released := false;
    }

    /** `install_wait_handler` (lines 980-990): one more object to wait
        for. */
    method InstallWaitHandler()
      requires !released
      modifies this`numHandlers
      ensures numHandlers == old(numHandlers) + 1
    {
      numHandlers := numHandlers + 1;
    }

    /** `unref_wait_handler` (lines 960-978), run when a waited-for object
        goes away: nothing at 0; otherwise one fewer, and when that was the
        last, `wait_handler_dbus` emits WaitDone with the id and the data
        is released. */
    method UnrefWaitHandler()
      requires !released
      modifies this`numHandlers, this`released, bus`waitDone
      ensures numHandlers == (if old(numHandlers) == 0 then 0 else old(numHandlers) - 1)
      ensures released <==> old(numHandlers) == 1
      ensures bus.waitDone == old(bus.waitDone) + (if old(numHandlers) == 1 then [waitId] else [])
    {
      if numHandlers == 0 {
        return;
      }
      numHandlers := numHandlers - 1;
      if numHandlers == 0 {
        bus.waitDone := bus.waitDone + [waitId];
        released := true;
      }
    }

    /** Installing a handler on each of `count` objects. */
    method InstallOnEach(count: nat)
      requires !released
      modifies this`numHandlers
      ensures numHandlers == old(numHandlers) + count
    {
      for i := 0 to count
        invariant numHandlers == old(numHandlers) + i
      {
        InstallWaitHandler();
      }
    }

    /** All `numHandlers` waited-for objects going away one by one: WaitDone
        is emitted exactly once, by the last of them, and the data is
        released. */
    method ReleaseAll()
      requires !released && numHandlers > 0
      modifies this`numHandlers, this`released, bus`waitDone
      ensures released && numHandlers == 0
      ensures bus.waitDone == old(bus.waitDone) + [waitId]
    {
      while numHandlers > 1
        invariant numHandlers >= 1 && !released
        invariant bus.waitDone == old(bus.waitDone)
      {
        UnrefWaitHandler();
      }
      UnrefWaitHandler();
    }
  }

  // ---------------------------------------------------------------------
  // Wait ids

  /** `++next_wait_id` on a `guint32`. */
  function NextWaitId(next: nat): (r: nat)
    requires next < Uint32Modulus
    ensures r < Uint32Modulus
    ensures next + 1 < Uint32Modulus ==> r == next + 1
    ensures next + 1 == Uint32Modulus ==> r == 0
  {
    (next + 1) % Uint32Modulus
  }

  /** The ids `n` waiting "Open" calls hand out when the counter is at
      `next`. */
  function WaitIds(next: nat, n: nat): (r: seq<nat>)
    requires next < Uint32Modulus
    ensures |r| == n
    decreases n
  {
    if n == 0 then [] else [NextWaitId(next)] + WaitIds(NextWaitId(next), n - 1)
  }

  /** Until the counter wraps, the ids follow the counter one by one: from
      a fresh service they are 1, 2, 3, ..., none of them 0 (the answer of
      a call that does not wait) and no two alike. */
  lemma {:induction false} WaitIdsCount(next: nat, n: nat)
    requires next + n < Uint32Modulus
    ensures forall k :: 0 <= k < n ==> WaitIds(next, n)[k] == next + k + 1
    decreases n
  {
    if n > 0 {
      WaitIdsCount(next + 1, n - 1);
      assert WaitIds(next, n) == [next + 1] + WaitIds(next + 1, n - 1);
    }
  }

  /** The service side of the "Open" method: the wait id counter and the
      bus its WaitDone signals go out on. */
  class Service {
    const bus: Bus
    var nextWaitId: nat

    ghost predicate Valid()
      reads this`nextWaitId
    {
      nextWaitId < Uint32Modulus
    }

    constructor (bus: Bus)
      ensures this.bus == bus && nextWaitId == 0 && Valid()
    {
      this.bus := bus;
      nextWaitId := 0;
    }

    /** The waiting part of `dbus_handle_open`, the "Open" method
        (lines 1331, 1411-1496): a call that does not wait answers 0; a
        waiting one takes the next id, and waits for each loaded document
        (with the new one, when asked for), or for the window when there
        is no document and no pipe; a pipe's document is waited for once
        its tab exists (`InstallWaitHandler` then). */
    method Open(wait: bool, newDocument: bool, loadedDocuments: nat, hasPipe: bool)
      returns (waitId: nat, data: WaitData?)
      requires Valid()
      modifies this`nextWaitId
      ensures Valid()
      ensures !wait ==> waitId == 0 && data == null && nextWaitId == old(nextWaitId)
      ensures wait ==> waitId == NextWaitId(old(nextWaitId)) && nextWaitId == waitId
      ensures wait ==> data != null && fresh(data) && data.bus == bus && data.waitId == waitId && !data.released
      ensures wait ==>
        (data.numHandlers ==
           if loadedDocuments + (if newDocument then 1 else 0) == 0 && !hasPipe then 1
           else loadedDocuments + (if newDocument then 1 else 0))
    {
      if !wait {
        return 0, null;
      }
      nextWaitId := NextWaitId(nextWaitId);
      data := new WaitData(bus, nextWaitId);
      waitId := data.waitId;
      var documents := loadedDocuments + (if newDocument then 1 else 0);
      if documents == 0 && !hasPipe {
        data.InstallWaitHandler();
      } else {
        data.InstallOnEach(documents);
      }
    }
  }

  // ---------------------------------------------------------------------
  // The client

  /** The client side: the wait id the service answered with and whether
      the main loop was asked to quit. */
  class Client {
    var waitId: nat
    var quit: bool

    constructor ()
      ensures waitId == 0 && !quit
    {
      waitId := 0;
      quit := false;
    }

    /** The reply to "Open" (lines 465-469): remember the wait id. */
    method OnReply(id: nat)
      modifies this`waitId
      ensures waitId == id
    {
      waitId := id;
    }

    /** `on_open_proxy_signal` (lines 479-497): quit only on a WaitDone
        carrying this client's own wait id. */
    method OnOpenProxySignal(signalName: string, id: nat)
      modifies this`quit
      ensures quit <==> old(quit) || (signalName == "WaitDone" && id == waitId)
    {
      if signalName == "WaitDone" {
        if id == waitId {
          quit := true;
        }
      }
    }

    /** Seeing every WaitDone emitted on the bus, in order: the client quits
        exactly when one of them carries its id. */
    method ReceiveWaitDone(signals: seq<nat>)
      modifies this`quit
      ensures quit <==> old(quit) || waitId in signals
    {
      for i := 0 to |signals|
        invariant quit <==> old(quit) || waitId in signals[..i]
      {
        OnOpenProxySignal("WaitDone", signals[i]);
        assert signals[..i + 1] == signals[..i] + [signals[i]];
      }
    }
  }
}
