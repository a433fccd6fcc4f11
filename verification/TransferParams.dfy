/** The checksum parameters of a transfer: the setters and the copy of
    src/core/transfer/gfal_transfer_params.c. Pointers are modelled by their values. */
module TransferParams {
  import opened Wrappers

  /** The two bits of gfalt_checksum_mode_t. */
  datatype Mode = Mode(source: bool, target: bool)

  const NONE := Mode(false, false)
  const SOURCE := Mode(true, false)
  const TARGET := Mode(false, true)
  const BOTH := Mode(true, true)

  /** checksum_mode, checksum_type and checksum_value of the parameter record. */
  datatype Checksum = Checksum(mode: Mode, kind: Option<string>, value: Option<string>)

  const Fresh := Checksum(NONE, None, None)

  predicate HasValue(v: Option<string>) { v.Some? && v.value != "" }

  /** A one-sided mode always comes with a value to compare against. */
  predicate Comparable(c: Checksum) { c.mode == SOURCE || c.mode == TARGET ==> HasValue(c.value) }

  predicate Refused(mode: Mode, value: Option<string>) { (mode == SOURCE || mode == TARGET) && !HasValue(value) }

  function Set(c: Checksum, mode: Mode, kind: Option<string>, value: Option<string>): Checksum {
    if Refused(mode, value) then c
    else Checksum(mode, if kind.Some? then kind else c.kind, value)
  }

  class Params {
    var checksum: Checksum
    var replace: bool
    var strict: bool
    var createParent: bool

    constructor ()
      ensures checksum == Fresh && !replace && !strict && !createParent
    {
      checksum, replace, strict, createParent := Fresh, false, false, false;
    }

    /** gfalt_params_handle_copy */
    constructor CopyOf(other: Params)
      ensures checksum == other.checksum && replace == other.replace
      ensures strict == other.strict && createParent == other.createParent
    {
      checksum, replace, strict, createParent := other.checksum, other.replace, other.strict, other.createParent;
    }

    method SetChecksum(mode: Mode, kind: Option<string>, value: Option<string>) returns (ret: int)
      requires Comparable(checksum)
      modifies this`checksum
      ensures Comparable(checksum) && checksum == Set(old(checksum), mode, kind, value)
      ensures ret == if mode.source != mode.target && (value.None? || value.value == "") then -1 else 0
      ensures ret == -1 ==> checksum == old(checksum)
      ensures ret == 0 ==>
                && checksum.mode == mode && checksum.value == value
                && checksum.kind == if kind.Some? then kind else old(checksum.kind)
    {
      if (mode == SOURCE || mode == TARGET) && (value.None? || value.value == "") {
        return -1;
      }
      checksum := checksum.(mode := mode);
      if kind.Some? {
        checksum := checksum.(kind := kind);
      }
      checksum := checksum.(value := value);
      ret := 0;
    }

    method SetChecksumCheck(on: bool) returns (ret: int)
      requires Comparable(checksum)
      modifies this`checksum
      ensures Comparable(checksum) && ret == 0
      ensures checksum == if on then old(checksum).(mode := BOTH) else Checksum(NONE, old(checksum).kind, None)
    {
      if on {
        ret := SetChecksum(BOTH, checksum.kind, checksum.value);
      } else {
        ret := SetChecksum(NONE, None, None);
      }
    }

    method SetUserDefinedChecksum(kind: Option<string>, value: Option<string>) returns (ret: int)
      requires Comparable(checksum)
      modifies this`checksum
      ensures Comparable(checksum) && ret == 0 && checksum == Set(old(checksum), BOTH, kind, value)
      ensures checksum == Checksum(BOTH, if kind.Some? then kind else old(checksum.kind), value)
    {
      ret := SetChecksum(BOTH, kind, value);
    }
  }

  // ---- Whole runs over any number of records ------------------------------------------------

  datatype Op =
    | New
    | CopyOf(i: nat)
    | SetOp(i: nat, mode: Mode, kind: Option<string>, value: Option<string>)
    | Check(i: nat, on: bool)
    | UserDefined(i: nat, kind: Option<string>, value: Option<string>)

  function Apply(s: seq<Checksum>, op: Op): seq<Checksum> {
    match op
    case New => s + [Fresh]
    case CopyOf(i) => if i < |s| then s + [s[i]] else s
    case SetOp(i, mode, kind, value) => if i < |s| then s[i := Set(s[i], mode, kind, value)] else s
    case Check(i, on) =>
      if i < |s| then s[i := if on then Set(s[i], BOTH, s[i].kind, s[i].value) else Set(s[i], NONE, None, None)] else s
    case UserDefined(i, kind, value) => if i < |s| then s[i := Set(s[i], BOTH, kind, value)] else s
  }

  function Run(s: seq<Checksum>, run: seq<Op>): seq<Checksum>
    decreases |run|
  {
    if run == [] then s else Run(Apply(s, run[0]), run[1..])
  }

  /** Across every run of setters and copies, a source-only or target-only mode implies a stored
      non-empty checksum. */
  lemma {:induction false} OneSidedModeHasValue(s: seq<Checksum>, run: seq<Op>, i: nat)
    requires forall c | c in s :: Comparable(c)
    requires i < |Run(s, run)|
    ensures Comparable(Run(s, run)[i])
    decreases |run|
  {
    if run == [] {
      assert s[i] in s;
    } else {
      var s' := Apply(s, run[0]);
      forall c | c in s' ensures Comparable(c) {
        var k :| 0 <= k < |s'| && s'[k] == c;
        if k < |s| {
          assert s[k] in s;
        }
      }
      OneSidedModeHasValue(s', run[1..], i);
    }
  }
}
