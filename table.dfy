/**
 * `SCATable` (SCArchive.hpp, SCArchive.cpp): the addresses of runtime
 * functions ("extrs"), stub routines and code blobs that compiled code
 * calls, and the dense id space that names them in the archive:
 * `[0, E)` extrs, `[E, E+S)` stubs, `[E+S, E+S+B)` blobs; the id
 * `E+S+B` is refused, and larger ids are distances from `os::init`.
 *
 * Which region an address lies in (`StubRoutines::contains`,
 * `CodeCache::find_blob`, `os::dll_address_to_function_name`) is
 * runtime knowledge the model receives as the classifier `Runtime.classify`.
 */
module AddressTable {
  import opened Bytes

  type Addr = u64

  /** Where the runtime places an address. `Outside` carries what `dll_address_to_function_name` reports. */
  datatype Region = InStubs | InCodeCache | Outside(symbolFound: bool, symbolOffset: int)

  /** The runtime the table consults: the region classifier and the address of `os::init`. */
  datatype Runtime = Runtime(classify: Addr -> Region, osInit: Addr)

  /** An id, or the `fatal` the lookup ends in. */
  datatype IdResult = Id(id: u64) | IdFatal

  /** An address, or the `fatal` the lookup ends in. */
  datatype AddrResult = Address(addr: Addr) | AddrFatal

  /** Capacities of the three arrays `SCATable::init` allocates. */
  const EXTRS_CAPACITY: nat := 10
  const STUBS_CAPACITY: nat := 10
  const BLOBS_CAPACITY: nat := 30

  /** The registered addresses of a table, in registration order. */
  datatype TableView = TableView(extrs: seq<Addr>, stubs: seq<Addr>, blobs: seq<Addr>, complete: bool)
  {
    function Total(): nat { |extrs| + |stubs| + |blobs| }

    predicate Valid()
    {
      |extrs| <= EXTRS_CAPACITY && |stubs| <= STUBS_CAPACITY && |blobs| <= BLOBS_CAPACITY
    }
  }

  /** `search_address` as a specification: the first index of `a`, or -1. */
  function IndexFrom(s: seq<Addr>, a: Addr, i: nat): (r: int)
    requires i <= |s|
    ensures r == -1 || i <= r < |s|
    ensures r >= 0 ==> s[r] == a && forall j :: i <= j < r ==> s[j] != a
    ensures r < 0 ==> forall j :: i <= j < |s| ==> s[j] != a
    decreases |s| - i
  {
    if i == |s| then -1 else if s[i] == a then i else IndexFrom(s, a, i + 1)
  }

  function IndexOf(s: seq<Addr>, a: Addr): int
  {
    IndexFrom(s, a, 0)
  }

  /** `pointer_delta(addr, os::init, 1)` as a `size_t`. */
  function Distance(rt: Runtime, a: Addr): u64
  {
    U64Of(a - rt.osInit)
  }

  /** `SCATable::id_for_address` as a specification. */
  function IdOf(t: TableView, rt: Runtime, a: Addr): IdResult
    requires t.Valid()
  {
    if !t.complete then IdFatal
    else match rt.classify(a)
      case InStubs =>
        var i := IndexOf(t.stubs, a);
        if i < 0 then IdFatal else Id(i + |t.extrs|)
      case InCodeCache =>
        var i := IndexOf(t.blobs, a);
        if i < 0 then IdFatal else Id(i + |t.extrs| + |t.stubs|)
      case Outside(found, offset) =>
        var i := IndexOf(t.extrs, a);
        if i >= 0 then Id(i)
        else if found && offset > 0 then Id(Distance(rt, a))
        else IdFatal
  }

  /** The entry at `id` of the three arrays laid end to end. */
  function Slot(t: TableView, id: nat): Addr
    requires id < t.Total()
  {
    if id < |t.extrs| then t.extrs[id]
    else if id < |t.extrs| + |t.stubs| then t.stubs[id - |t.extrs|]
    else t.blobs[id - |t.extrs| - |t.stubs|]
  }

  /**
   * `SCATable::address_for_id` as SCArchive.cpp writes it: the `size_t` id
   * is cast to `int` before it is compared, but `os::init + idx` adds the
   * uncast value.
   */
  function AddressForAsWritten(t: TableView, rt: Runtime, idx: u64): AddrResult
  {
    if !t.complete then AddrFatal
    else
      var id := Int32Of(idx);
      if id < 0 || id == t.Total() then AddrFatal
      else if id > t.Total() then Address(U64Of(rt.osInit + idx))
      else Address(Slot(t, id))
  }

  /** `address_for_id` with the id compared as the `size_t` it was encoded as. */
  function AddressFor(t: TableView, rt: Runtime, idx: u64): AddrResult
  {
    if !t.complete || idx == t.Total() then AddrFatal
    else if idx > t.Total() then Address(U64Of(rt.osInit + idx))
    else Address(Slot(t, idx))
  }

  /** The id space partition of `address_for_id`. */
  lemma AddressForPartition(t: TableView, rt: Runtime, idx: u64)
    requires t.complete
    ensures idx < |t.extrs| ==> AddressFor(t, rt, idx) == Address(t.extrs[idx])
    ensures |t.extrs| <= idx < |t.extrs| + |t.stubs| ==>
      AddressFor(t, rt, idx) == Address(t.stubs[idx - |t.extrs|])
    ensures |t.extrs| + |t.stubs| <= idx < t.Total() ==>
      AddressFor(t, rt, idx) == Address(t.blobs[idx - |t.extrs| - |t.stubs|])
    ensures AddressFor(t, rt, idx) == AddrFatal <==> idx == t.Total()
    ensures idx > t.Total() ==> AddressFor(t, rt, idx) == Address(U64Of(rt.osInit + idx))
  {
  }

  /** An incomplete table refuses every id, in both versions. */
  lemma IncompleteTableIsFatal(t: TableView, rt: Runtime, idx: u64)
    requires !t.complete
    ensures AddressFor(t, rt, idx) == AddrFatal && AddressForAsWritten(t, rt, idx) == AddrFatal
  {
  }

  /** Ids that are negative as an `int` are refused by the code as written. */
  lemma NegativeIdIsFatalAsWritten(t: TableView, rt: Runtime, idx: u64)
    requires Int32Of(idx) < 0
    ensures AddressForAsWritten(t, rt, idx) == AddrFatal
  {
  }

  /** An address `id_for_address` can encode: registered in the array of its region, or an offset into a known symbol. */
  predicate Registered(t: TableView, rt: Runtime, a: Addr)
  {
    match rt.classify(a)
    case InStubs => a in t.stubs
    case InCodeCache => a in t.blobs
    case Outside(found, offset) =>
      a in t.extrs || (found && offset > 0 && Distance(rt, a) > t.Total())
  }

  lemma IndexOfFound(s: seq<Addr>, a: Addr)
    requires a in s
    ensures 0 <= IndexOf(s, a) < |s| && s[IndexOf(s, a)] == a
  {
    var k :| 0 <= k < |s| && s[k] == a;
    assert IndexOf(s, a) >= 0;
  }

  /**
   * Round trip of the address table: for every address registered in the
   * array of its region, and for the raw-distance fallback of external
   * addresses, decoding the id encodes back the same address.
   */
  lemma IdRoundTrip(t: TableView, rt: Runtime, a: Addr)
    requires t.Valid() && t.complete && Registered(t, rt, a)
    ensures IdOf(t, rt, a).Id?
    ensures AddressFor(t, rt, IdOf(t, rt, a).id) == Address(a)
  {
    match rt.classify(a)
    case InStubs =>
      IndexOfFound(t.stubs, a);
    case InCodeCache =>
      IndexOfFound(t.blobs, a);
    case Outside(found, offset) =>
      if a in t.extrs {
        IndexOfFound(t.extrs, a);
      } else {
        var d := Distance(rt, a);
        assert IndexOf(t.extrs, a) < 0;
        assert (rt.osInit + (a - rt.osInit) % U64_MODULUS) % U64_MODULUS == a;
      }
  }

  /**
   * The `(int)` cast of the code as written aliases a raw distance of
   * 2^32 to id 0: the external address 2^32 is encoded as 2^32 but
   * decoded as the first extrs entry.
   */
  lemma AsWrittenDistanceAliasesTable()
    ensures var t := TableView([5], [], [], true);
      var rt := Runtime(_ => Outside(true, 1), 0);
      && Registered(t, rt, 0x1_0000_0000)
      && IdOf(t, rt, 0x1_0000_0000) == Id(0x1_0000_0000)
      && AddressForAsWritten(t, rt, 0x1_0000_0000) == Address(5)
      && AddressFor(t, rt, 0x1_0000_0000) == Address(0x1_0000_0000)
  {
    var t := TableView([5], [], [], true);
    var rt := Runtime(_ => Outside(true, 1), 0);
    assert IndexOf(t.extrs, 0x1_0000_0000) == -1;
  }

  /** And a raw distance of 2^31 becomes a negative `int`, which the code as written refuses as fatal. */
  lemma AsWrittenLargeDistanceIsFatal()
    ensures var t := TableView([5], [], [], true);
      var rt := Runtime(_ => Outside(true, 1), 0);
      && Registered(t, rt, 0x8000_0000)
      && IdOf(t, rt, 0x8000_0000) == Id(0x8000_0000)
      && AddressForAsWritten(t, rt, 0x8000_0000) == AddrFatal
      && AddressFor(t, rt, 0x8000_0000) == Address(0x8000_0000)
  {
    var t := TableView([5], [], [], true);
    var rt := Runtime(_ => Outside(true, 1), 0);
    assert IndexOf(t.extrs, 0x8000_0000) == -1;
  }

  /** The addresses `SCATable::init` registers, in the order it registers them (a C2 build). */
  datatype InitAddresses = InitAddresses(
    // extrs
    handleExceptionC: Addr, ptrsBaseAddr: Addr, debug64: Addr,
    // stubs
    methodEntryBarrier: Addr,
    // blobs
    handleWrongMethodStub: Addr, icMissStub: Addr, resolveOptVirtualCallStub: Addr,
    resolveVirtualCallStub: Addr, resolveStaticCallStub: Addr, deoptBlob: Addr,
    pollingPageSafepointHandlerBlob: Addr, pollingPageReturnHandlerBlob: Addr,
    pollingPageVectorsSafepointHandlerBlob: Addr, uncommonTrapBlob: Addr)

  /** The addresses `SCATable::init_opto` appends to the blobs, in order. */
  datatype OptoAddresses = OptoAddresses(
    exceptionBlob: Addr, newInstanceJava: Addr, newArrayJava: Addr, newArrayNozeroJava: Addr,
    multianewarray2Java: Addr, multianewarray3Java: Addr, multianewarray4Java: Addr,
    multianewarray5Java: Addr, multianewarrayNJava: Addr, vtableMustCompileStub: Addr,
    completeMonitorLockingJava: Addr, monitorNotifyJava: Addr, monitorNotifyAllJava: Addr,
    rethrowStub: Addr, slowArraycopyJava: Addr, registerFinalizerJava: Addr)

  function InitExtrs(s: InitAddresses): seq<Addr>
  {
    [s.handleExceptionC, s.ptrsBaseAddr, s.debug64]
  }

  function InitStubs(s: InitAddresses): seq<Addr>
  {
    [s.methodEntryBarrier]
  }

  function InitBlobs(s: InitAddresses): seq<Addr>
  {
    [s.handleWrongMethodStub, s.icMissStub, s.resolveOptVirtualCallStub, s.resolveVirtualCallStub,
     s.resolveStaticCallStub, s.deoptBlob, s.pollingPageSafepointHandlerBlob,
     s.pollingPageReturnHandlerBlob, s.pollingPageVectorsSafepointHandlerBlob, s.uncommonTrapBlob]
  }

  function OptoBlobs(s: OptoAddresses): (r: seq<Addr>)
    ensures |r| == 16
  {
    [s.exceptionBlob, s.newInstanceJava, s.newArrayJava, s.newArrayNozeroJava,
     s.multianewarray2Java, s.multianewarray3Java, s.multianewarray4Java, s.multianewarray5Java,
     s.multianewarrayNJava, s.vtableMustCompileStub, s.completeMonitorLockingJava,
     s.monitorNotifyJava, s.monitorNotifyAllJava, s.rethrowStub, s.slowArraycopyJava,
     s.registerFinalizerJava]
  }

  /** The `SET_ADDRESS` macro: store at the current length, then increment it. */
  method SetAddress(table: array<Addr>, length: nat, a: Addr) returns (newLength: nat)
    requires length < table.Length
    modifies table
    ensures newLength == length + 1
    ensures table[..newLength] == old(table[..length]) + [a]
  {
    table[length] := a;
    newLength := length + 1;
  }

  /** The extrs part of `SCATable::init`. */
  method RegisterExtrs(src: InitAddresses) returns (table: array<Addr>, length: nat)
    ensures fresh(table) && table.Length == EXTRS_CAPACITY && length <= table.Length
    ensures table[..length] == InitExtrs(src)
  {
    table := new Addr[EXTRS_CAPACITY];
    length := SetAddress(table, 0, src.handleExceptionC);
    length := SetAddress(table, length, src.ptrsBaseAddr);
    length := SetAddress(table, length, src.debug64);
  }

  /** The stubs part of `SCATable::init`. */
  method RegisterStubs(src: InitAddresses) returns (table: array<Addr>, length: nat)
    ensures fresh(table) && table.Length == STUBS_CAPACITY && length <= table.Length
    ensures table[..length] == InitStubs(src)
  {
    table := new Addr[STUBS_CAPACITY];
    length := SetAddress(table, 0, src.methodEntryBarrier);
  }

  /** The blobs part of `SCATable::init`. */
  method RegisterBlobs(src: InitAddresses) returns (table: array<Addr>, length: nat)
    ensures fresh(table) && table.Length == BLOBS_CAPACITY && length <= table.Length
    ensures table[..length] == InitBlobs(src)
  {
    table := new Addr[BLOBS_CAPACITY];
    length := SetAddress(table, 0, src.handleWrongMethodStub);
    length := SetAddress(table, length, src.icMissStub);
    length := SetAddress(table, length, src.resolveOptVirtualCallStub);
    length := SetAddress(table, length, src.resolveVirtualCallStub);
    length := SetAddress(table, length, src.resolveStaticCallStub);
    length := SetAddress(table, length, src.deoptBlob);
    length := SetAddress(table, length, src.pollingPageSafepointHandlerBlob);
    length := SetAddress(table, length, src.pollingPageReturnHandlerBlob);
    length := SetAddress(table, length, src.pollingPageVectorsSafepointHandlerBlob);
    length := SetAddress(table, length, src.uncommonTrapBlob);
  }

  /** `search_address`: a first-index linear scan over the first `length` slots, -1 when absent. */
  method SearchAddress(addr: Addr, table: array<Addr>, length: nat) returns (r: int)
    requires length <= table.Length
    ensures r == IndexOf(table[..length], addr)
    ensures r >= 0 ==> r < length && table[r] == addr
    ensures r < 0 <==> forall j :: 0 <= j < length ==> table[j] != addr
  {
    var i := 0;
    while i < length
      invariant 0 <= i <= length
      invariant forall j :: 0 <= j < i ==> table[j] != addr
      invariant IndexOf(table[..length], addr) == IndexFrom(table[..length], addr, i)
    {
      if table[i] == addr {
        return i;
      }
      i := i + 1;
    }
    return -1;
  }

  class SCATable {
    var extrsAddr: array<Addr>
    var stubsAddr: array<Addr>
    var blobsAddr: array<Addr>
    var extrsLength: nat
    var stubsLength: nat
    var blobsLength: nat
    var complete: bool

    ghost predicate Valid()
      reads this
    {
      && extrsLength <= extrsAddr.Length <= EXTRS_CAPACITY
      && stubsLength <= stubsAddr.Length <= STUBS_CAPACITY
      && blobsLength <= blobsAddr.Length <= BLOBS_CAPACITY
      && extrsAddr != stubsAddr && extrsAddr != blobsAddr && stubsAddr != blobsAddr
    }

    function View(): (v: TableView)
      reads this, extrsAddr, stubsAddr, blobsAddr
      requires Valid()
      ensures v.Valid()
    {
      TableView(extrsAddr[..extrsLength], stubsAddr[..stubsLength], blobsAddr[..blobsLength], complete)
    }

    /**
     * A new table is not complete and registers nothing; its arrays are
     * allocated by `Init` (until then they are empty).
     */
    constructor ()
      ensures Valid() && !complete
      ensures View() == TableView([], [], [], false)
    {
      extrsAddr := new Addr[0];
      stubsAddr := new Addr[0];
      blobsAddr := new Addr[0];
      extrsLength, stubsLength, blobsLength := 0, 0, 0;
      complete := false;
    }

    /** `init`: allocate the arrays, register the fixed addresses in order, mark the table complete. */
    method Init(src: InitAddresses)
      requires Valid() && !complete
      modifies this
      ensures Valid() && complete
      ensures fresh(extrsAddr) && fresh(stubsAddr) && fresh(blobsAddr)
      ensures extrsAddr.Length == EXTRS_CAPACITY && stubsAddr.Length == STUBS_CAPACITY
      ensures blobsAddr.Length == BLOBS_CAPACITY
      ensures View() == TableView(InitExtrs(src), InitStubs(src), InitBlobs(src), true)
    {
      extrsAddr, extrsLength := RegisterExtrs(src);
      stubsAddr, stubsLength := RegisterStubs(src);
      blobsAddr, blobsLength := RegisterBlobs(src);
      complete := true;
    }

    /** `init_opto`: append the compiler's blobs after those of `init`. */
    method InitOpto(src: OptoAddresses)
      requires Valid() && complete && blobsLength + 16 <= blobsAddr.Length
      modifies this`blobsLength, blobsAddr
      ensures Valid()
      ensures View() == old(View()).(blobs := old(View()).blobs + OptoBlobs(src))
    {
      var opto := OptoBlobs(src);
      var k := 0;
      while k < 16
        invariant 0 <= k <= 16 && blobsLength == old(blobsLength) + k
        invariant blobsAddr[..blobsLength] == old(blobsAddr[..blobsLength]) + opto[..k]
      {
        blobsLength := SetAddress(blobsAddr, blobsLength, opto[k]);
        assert opto[..k + 1] == opto[..k] + [opto[k]];
        k := k + 1;
      }
    }

    /** `id_for_address`: encode an address as its id, or end in `fatal`. */
    method IdForAddress(rt: Runtime, addr: Addr) returns (r: IdResult)
      requires Valid()
      ensures r == IdOf(View(), rt, addr)
    {
      if !complete {
        return IdFatal;
      }
      match rt.classify(addr)
      case InStubs =>
        var id := SearchAddress(addr, stubsAddr, stubsLength);
        r := if id < 0 then IdFatal else Id(id + extrsLength);
      case InCodeCache =>
        var id := SearchAddress(addr, blobsAddr, blobsLength);
        r := if id < 0 then IdFatal else Id(id + extrsLength + stubsLength);
      case Outside(found, offset) =>
        var id := SearchAddress(addr, extrsAddr, extrsLength);
        if id >= 0 {
          r := Id(id);
        } else if found && offset > 0 {
          r := Id(Distance(rt, addr));
        } else {
          r := IdFatal;
        }
    }

    /** `address_for_id` (with the id compared as a `size_t`). */
    function AddressForId(rt: Runtime, idx: u64): AddrResult
      reads this, extrsAddr, stubsAddr, blobsAddr
      requires Valid()
    {
      AddressFor(View(), rt, idx)
    }
  }
}
