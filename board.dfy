/**
 * The board file's global state, set once at boot and read later: the
 * `tegrapart=` partition descriptor, and the single slot for the Wi-Fi
 * card-status callback of the SDIO host. Each setter is specified by a pure
 * step function; lemmas over sequences of calls state the once-only rules.
 */
module StarBoard {
  import opened Wrappers
  import opened CString
  import opened Word
  import opened Strtoull
  import opened PartitionTable

  /** The errno value of EAGAIN; the registration returns its negation. */
  const EAGAIN: int := 11

  /** A pointer passed around without being dereferenced: a callback or a device cookie. 0 is NULL. */
  type Handle = nat

  const NULL: Handle := 0

  /** The callback slot: the registered callback and the cookie it is called with. */
  datatype Registration = Registration(callback: Handle, devId: Handle)

  /** The return code of a registration together with the slot after it. */
  datatype RegisterOutcome = RegisterOutcome(ret: int, reg: Registration)

  /** What a card-detect event does: call the registered callback, or only warn that nobody listens. */
  datatype CardDetectAction = Notify(callback: Handle, cardPresent: int, devId: Handle) | NobodyToNotify

  /**
   * One `tegrapart=` option: a non-NULL, non-empty option string is kept
   * when no descriptor is stored yet; otherwise nothing changes.
   */
  function SetupStep(stored: Option<string>, options: Option<string>): (r: Option<string>)
    ensures stored.Some? ==> r == stored
    ensures stored.None? && options.Some? && StrLen(options.value) > 0 ==> r == options
    ensures options.None? || StrLen(options.value) == 0 ==> r == stored
  {
    if options.Some? && At(options.value, 0) != '\0' && stored.None? then options else stored
  }

  /**
   * The descriptor after the option handler has run on each of `calls` in
   * turn: still NULL exactly when it was NULL and every option was NULL or empty.
   */
  function SetupAll(stored: Option<string>, calls: seq<Option<string>>): (r: Option<string>)
    ensures r.None? <==> stored.None? && forall j :: 0 <= j < |calls| ==> calls[j].None? || StrLen(calls[j].value) == 0
    decreases |calls|
  {
    if calls == [] then stored else SetupAll(SetupStep(stored, calls[0]), calls[1..])
  }

  /** The first non-NULL, non-empty option among `calls`, if any. */
  function FirstNonEmpty(calls: seq<Option<string>>): (r: Option<string>)
    ensures r.Some? ==> r in calls && StrLen(r.value) > 0
    ensures r.Some? ==> exists i :: 0 <= i < |calls| && calls[i] == r
                          && forall j :: 0 <= j < i ==> calls[j].None? || StrLen(calls[j].value) == 0
    ensures r.None? ==> forall i :: 0 <= i < |calls| ==> calls[i].None? || StrLen(calls[i].value) == 0
    decreases |calls|
  {
    if calls == [] then None
    else if calls[0].Some? && StrLen(calls[0].value) > 0 then calls[0]
    else FirstNonEmpty(calls[1..])
  }

  /**
   * First writer wins: after any sequence of options, the descriptor is the
   * one stored before, if any, and otherwise the first non-empty option.
   */
  lemma {:induction false} SetupFirstWriterWins(stored: Option<string>, calls: seq<Option<string>>)
    ensures SetupAll(stored, calls) == if stored.Some? then stored else FirstNonEmpty(calls)
    decreases |calls|
  {
    if calls != [] {
      SetupFirstWriterWins(SetupStep(stored, calls[0]), calls[1..]);
    }
  }

  /**
   * One registration: while the slot holds a callback it fails with
   * -EAGAIN and keeps the slot; otherwise it stores the callback and cookie
   * it is given and succeeds.
   */
  function RegisterStep(reg: Registration, callback: Handle, devId: Handle): (r: RegisterOutcome)
    ensures r.ret == 0 || r.ret == -EAGAIN
    ensures r.ret == 0 <==> reg.callback == NULL
    ensures r.ret == -EAGAIN ==> r.reg == reg
    ensures r.ret == 0 ==> r.reg == Registration(callback, devId)
  {
    if reg.callback != NULL then RegisterOutcome(-EAGAIN, reg)
    else RegisterOutcome(0, Registration(callback, devId))
  }

  /**
   * The slot after each of `calls`, a callback and a cookie, has been
   * registered in turn: still empty exactly when it was empty and every
   * registration passed a NULL callback.
   */
  function RegisterAll(reg: Registration, calls: seq<Registration>): (r: Registration)
    ensures r.callback == NULL <==> reg.callback == NULL && forall j :: 0 <= j < |calls| ==> calls[j].callback == NULL
    decreases |calls|
  {
    if calls == [] then reg
    else RegisterAll(RegisterStep(reg, calls[0].callback, calls[0].devId).reg, calls[1..])
  }

  /** Once a callback is registered, no later registration changes the slot. */
  lemma {:induction false} RegisteredStaysRegistered(reg: Registration, calls: seq<Registration>)
    requires reg.callback != NULL
    ensures RegisterAll(reg, calls) == reg
    decreases |calls|
  {
    if calls != [] {
      RegisteredStaysRegistered(reg, calls[1..]);
    }
  }

  /**
   * Starting from an empty slot, the first registration of a non-NULL
   * callback is the one that stays, whatever follows it.
   */
  lemma {:induction false} FirstRegistrationWins(reg: Registration, calls: seq<Registration>, i: nat)
    requires reg.callback == NULL
    requires i < |calls| && calls[i].callback != NULL
    requires forall j :: 0 <= j < i ==> calls[j].callback == NULL
    ensures RegisterAll(reg, calls) == calls[i]
    decreases i
  {
    var next := RegisterStep(reg, calls[0].callback, calls[0].devId).reg;
    if i == 0 {
      RegisteredStaysRegistered(next, calls[1..]);
    } else {
      FirstRegistrationWins(next, calls[1..], i - 1);
    }
  }

  /** A card-detect event with the given card state, as the slot stands. */
  function CardDetect(reg: Registration, val: int): (a: CardDetectAction)
    ensures a.Notify? <==> reg.callback != NULL
    ensures a.Notify? ==> a.callback == reg.callback && a.devId == reg.devId && a.cardPresent == val
  {
    if reg.callback != NULL then Notify(reg.callback, val, reg.devId) else NobodyToNotify
  }

  /**
   * After a registration of a non-NULL callback, card-detect events go to
   * the callback that holds the slot: the new one when the registration
   * succeeded, the earlier one when it was refused.
   */
  lemma NotifyAfterRegister(reg: Registration, callback: Handle, devId: Handle, val: int)
    requires callback != NULL
    ensures var o := RegisterStep(reg, callback, devId);
            CardDetect(o.reg, val)
              == if o.ret == 0 then Notify(callback, val, devId) else Notify(reg.callback, val, reg.devId)
  {
  }

  /**
   * The three field reads of a lookup once the name has matched: base-16
   * Strtoull at `p`, then after each ':' the next field, each output
   * written as soon as its value is known.
   */
  method ReadFields(s: string, p: nat, prior: SectorInfo) returns (ret: int, info: SectorInfo)
    requires p <= |s|
    ensures Lookup(ret, info) == DecodeEntry(s, p, prior)
  {
    info := prior;
    var v, end := Strtoull.Strtoull(s, p, true, 16);
    info := info.(start := v);
    var e := end.value;
    if At(s, e) != ':' {
      return -1, info;
    }
    v, end := Strtoull.Strtoull(s, e + 1, true, 16);
    info := info.(length := v);
    e := end.value;
    if At(s, e) != ':' {
      return -1, info;
    }
    v, end := Strtoull.Strtoull(s, e + 1, true, 16);
    info := info.(size := Truncate32(v));
    e := end.value;
    if At(s, e) != ',' && At(s, e) != ' ' && At(s, e) != '\0' {
      return -1, info;
    }
    return 0, info;
  }

  /** The globals of the board file. */
  class BoardGlobals {
    /** tegra_partition_list: the descriptor from the boot line, None while NULL. */
    var partitionList: Option<string>
    /** wifi_status_cb and wifi_status_cb_devid. */
    var wifiStatusCb: Handle
    var wifiStatusCbDevId: Handle

    function Slot(): Registration
      reads this
    {
      Registration(wifiStatusCb, wifiStatusCbDevId)
    }

    /** Static storage starts zeroed: no descriptor and an empty callback slot. */
    constructor()
      ensures partitionList == None
      ensures wifiStatusCb == NULL && wifiStatusCbDevId == NULL
    {
      partitionList := None;
      wifiStatusCb := NULL;
      wifiStatusCbDevId := NULL;
    }

    /** The `tegrapart=` handler: keeps the first non-empty option and always returns 0. */
    method TegrapartSetup(options: Option<string>) returns (ret: int)
      modifies this
      ensures ret == 0
      ensures partitionList == SetupStep(old(partitionList), options)
      ensures wifiStatusCb == old(wifiStatusCb) && wifiStatusCbDevId == old(wifiStatusCbDevId)
    {
      if options.Some? && At(options.value, 0) != '\0' && partitionList.None? {
        partitionList := options;
      }
      return 0;
    }

    /** Registers the card-status callback of the Wi-Fi SDIO slot; -EAGAIN if one is registered. */
    method WifiStatusRegister(callback: Handle, devId: Handle) returns (ret: int)
      modifies this
      ensures RegisterOutcome(ret, Slot()) == RegisterStep(old(Slot()), callback, devId)
      ensures partitionList == old(partitionList)
    {
      if wifiStatusCb != NULL {
        return -EAGAIN;
      }
      wifiStatusCb := callback;
      wifiStatusCbDevId := devId;
      return 0;
    }

    /**
     * The card-detect hook: calls the registered callback with the card
     * state and the stored cookie, or only warns; returns 0 either way.
     * The call itself is returned as an action.
     */
    method WifiSetCardDetect(val: int) returns (ret: int, action: CardDetectAction)
      ensures ret == 0
      ensures action == CardDetect(Slot(), val)
    {
      if wifiStatusCb != NULL {
        action := Notify(wifiStatusCb, val, wifiStatusCbDevId);
      } else {
        action := NobodyToNotify;
      }
      return 0, action;
    }

    /**
     * Looks `name` up in the stored descriptor. With no descriptor, or no
     * entry the scan reaches that carries the name, it returns -1 and leaves
     * the outputs alone; otherwise it decodes the first such entry, with the
     * outputs written as DecodeEntry says.
     */
    method GetPartitionInfoByName(name: string, prior: SectorInfo) returns (ret: int, info: SectorInfo)
      ensures partitionList.None? ==> ret == -1 && info == prior
      ensures (partitionList.Some? && forall q: nat :: !FirstMatch(partitionList.value, name, q))
                ==> ret == -1 && info == prior
      ensures forall q: nat :: partitionList.Some? && FirstMatch(partitionList.value, name, q)
                ==> q + StrLen(name) + 1 <= |partitionList.value|
                    && Lookup(ret, info) == DecodeEntry(partitionList.value, q + StrLen(name) + 1, prior)
    {
      var len := StrLen(name);
      info := prior;
      if partitionList.None? {
        return -1, info;
      }
      var s := partitionList.value;
      var p := 0;
      while At(s, p) != '\0' && At(s, p) != ' '
        invariant p <= |s| && IsEntryStart(s, p)
        invariant forall k :: 0 <= k < p ==> Clear(s, k)
        invariant forall q :: 0 <= q < p && ScannedEntry(s, q) ==> !NameAt(s, q, name)
        decreases |s| - p
      {
        // strncmp over the name's length, then the ":" right after it
        if NameAt(s, p, name) {
          assert FirstMatch(s, name, p);
          forall q | FirstMatch(s, name, q) ensures q == p {
            FirstMatchUnique(s, name, q, p);
          }
          ret, info := ReadFields(s, p + len + 1, prior);
          return;
        }
        ghost var p0 := p;
        while At(s, p) != ',' && At(s, p) != '\0'
          invariant p0 <= p <= |s|
          invariant forall k :: p0 <= k < p ==> s[k] != ',' && s[k] != '\0'
          decreases |s| - p
        {
          p := p + 1;
        }
        if At(s, p) == '\0' {
          ScanStops(s, name, p);
          return -1, info;
        }
        p := p + 1;
      }
      ScanStops(s, name, p);
      return -1, info;
    }
  }
}
