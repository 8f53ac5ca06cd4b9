/** Byte formats of contract data and execution requests, and the reader that takes them apart. */
module Codecs {
  import opened Bytes

  const MODULUS := 0x30644e72e131a029b85045b68181585d2833e84879b9709143e1f593f0000001
  const I32_LIMIT := 0x8000_0000
  const SELECTOR_BYTES := 4
  const FIELD_BYTES := 32
  const ETH_BYTES := 20

  /** A value and the position after it, or an exception. */
  datatype Reading<+T> = Got(value: T, index: nat) | Threw {
    predicate IsFailure() { Threw? }
    function PropagateFailure<U>(): Reading<U> requires Threw? { Threw }
    function Extract(): (T, nat) requires Got? { (value, index) }
  }

  /** `buffer.subarray(i, i + n)`, which stops at the end. */
  function Slice(b: Buffer, i: nat, n: nat): (s: Buffer)
    ensures |s| <= n
  {
    if i >= |b| then [] else if i + n <= |b| then b[i..i + n] else b[i..]
  }

  function ReadNumber(b: Buffer, i: nat): Reading<nat> {
    if i + 4 <= |b| then Got(ReadU32BE(b[i..i + 4]), i + 4) else Threw
  }

  function ReadBytes(b: Buffer, i: nat, n: nat): Reading<Buffer> {
    Got(Slice(b, i, n), i + n)
  }

  /** Beyond the end it reads false. */
  function ReadBoolean(b: Buffer, i: nat): Reading<bool> {
    Got(i < |b| && b[i] != 0, i + 1)
  }

  function ReadBuffer(b: Buffer, i: nat): Reading<Buffer> {
    var (n, j) :- ReadNumber(b, i);
    ReadBytes(b, j, n)
  }

  function ReadFr(b: Buffer, i: nat): Reading<nat> {
    Got(ToBigIntBE(Slice(b, i, FIELD_BYTES)), i + FIELD_BYTES)
  }

  /** `AztecAddress`: its constructor refuses values that are not field elements. */
  function ReadAddress(b: Buffer, i: nat): Reading<Buffer> {
    var s := Slice(b, i, FIELD_BYTES);
    if ToBigIntBE(s) < MODULUS then Got(s, i + FIELD_BYTES) else Threw
  }

  /** The constructor of `EthAddress`: 20 bytes, or 32 of which the first 12 are zero. */
  function MakeEth(s: Buffer): Reading<Buffer> {
    if |s| == FIELD_BYTES then (if s[..12] == Zeros(12) then Got(s[12..], 0) else Threw)
    else if |s| == ETH_BYTES then Got(s, 0)
    else Threw
  }

  function BoolBytes(x: bool): Buffer {
    [if x then 1 else 0]
  }

  // Contract data.

  datatype EncodedContractFunction = EncodedContractFunction(functionSelector: Buffer, bytecode: Buffer)
  datatype ContractData = ContractData(contractAddress: Buffer, portalContractAddress: Buffer)
  datatype ContractPublicData = ContractPublicData(contractData: ContractData, publicFunctions: seq<EncodedContractFunction>)

  predicate IsAddress(a: Buffer) {
    |a| == FIELD_BYTES && ToBigIntBE(a) < MODULUS
  }

  predicate FunctionInRange(f: EncodedContractFunction) {
    |f.functionSelector| == SELECTOR_BYTES && |f.bytecode| < I32_LIMIT
  }

  predicate FunctionsInRange(fs: seq<EncodedContractFunction>) {
    forall i :: 0 <= i < |fs| ==> FunctionInRange(fs[i])
  }

  predicate DataInRange(d: ContractPublicData) {
    && IsAddress(d.contractData.contractAddress) && |d.contractData.portalContractAddress| == ETH_BYTES
    && 0 < |d.publicFunctions| < U32_LIMIT && FunctionsInRange(d.publicFunctions)
  }

  function FunctionBytes(f: EncodedContractFunction): Buffer
    requires FunctionInRange(f)
  {
    f.functionSelector + (U32BE(|f.bytecode|) + f.bytecode)
  }

  function FunctionsBytes(fs: seq<EncodedContractFunction>): Buffer
    requires FunctionsInRange(fs)
  {
    if fs == [] then [] else FunctionsBytes(fs[..|fs| - 1]) + FunctionBytes(fs[|fs| - 1])
  }

  function DataBytes(d: ContractPublicData): Buffer
    requires DataInRange(d)
  {
    (d.contractData.contractAddress + d.contractData.portalContractAddress) + (U32BE(|d.publicFunctions|) + FunctionsBytes(d.publicFunctions))
  }

  function ReadFunction(b: Buffer, i: nat): Reading<EncodedContractFunction> {
    var (selector, j) :- ReadBytes(b, i, SELECTOR_BYTES);
    var (code, k) :- ReadBuffer(b, j);
    Got(EncodedContractFunction(selector, code), k)
  }

  function ReadFunctions(b: Buffer, i: nat, n: nat): Reading<seq<EncodedContractFunction>> {
    if n == 0 then Got([], i)
    else
      var (fs, j) :- ReadFunctions(b, i, n - 1);
      var (f, k) :- ReadFunction(b, j);
      Got(fs + [f], k)
  }

  function ReadContractData(b: Buffer, i: nat): Reading<ContractData> {
    var (address, j) :- ReadAddress(b, i);
    var (bytes, k) :- ReadBytes(b, j, ETH_BYTES);
    var (eth, _) :- MakeEth(bytes);
    Got(ContractData(address, eth), k)
  }

  /** The constructor refuses an empty list of functions. */
  function ReadPublicData(b: Buffer, i: nat): Reading<ContractPublicData> {
    var (data, j) :- ReadContractData(b, i);
    var (n, k) :- ReadNumber(b, j);
    var (fs, m) :- ReadFunctions(b, k, n);
    if fs == [] then Threw else Got(ContractPublicData(data, fs), m)
  }

  // What a read means for the bytes read.

  lemma ReadNumberBack(b: Buffer, i: nat)
    requires ReadNumber(b, i).Got?
    ensures i + 4 <= |b| && b[i..i + 4] == U32BE(ReadNumber(b, i).value)
  {
    var s := b[i..i + 4];
    var n := ReadU32BE(s);
    assert n == ((s[0] as int * 256 + s[1] as int) * 256 + s[2] as int) * 256 + s[3] as int;
    assert n % 256 == s[3] as int && n / 256 == (s[0] as int * 256 + s[1] as int) * 256 + s[2] as int;
    assert n / 256 % 256 == s[2] as int && n / 256 / 256 == s[0] as int * 256 + s[1] as int;
    assert n / 0x1_0000 == n / 256 / 256 && n / 0x100_0000 == n / 256 / 256 / 256;
  }

  lemma ReadFunctionBack(b: Buffer, i: nat)
    requires var r := ReadFunction(b, i); r.Got? && r.index <= |b| && FunctionInRange(r.value)
    ensures var r := ReadFunction(b, i); i <= r.index && b[i..r.index] == FunctionBytes(r.value)
  {
    ReadNumberBack(b, i + 4);
    var r := ReadFunction(b, i);
    hide U32BE; hide ReadU32BE;
    assert b[i..r.index] == b[i..i + 4] + (b[i + 4..i + 8] + b[i + 8..r.index]);
  }

  lemma {:induction false} ReadFunctionsBack(b: Buffer, i: nat, n: nat)
    requires var r := ReadFunctions(b, i, n); r.Got? && r.index <= |b| && FunctionsInRange(r.value)
    ensures var r := ReadFunctions(b, i, n); |r.value| == n && i <= r.index && b[i..r.index] == FunctionsBytes(r.value)
  {
    if n > 0 {
      var init := ReadFunctions(b, i, n - 1);
      var last := ReadFunction(b, init.index);
      var r := ReadFunctions(b, i, n);
      assert r.value == init.value + [last.value] && r.index == last.index;
      assert r.value[|r.value| - 1] == last.value && r.value[..|r.value| - 1] == init.value;
      ReadFunctionIndex(b, init.index);
      hide ReadFunction; hide FunctionBytes; hide FunctionInRange;
      assert FunctionsInRange(init.value);
      ReadFunctionsBack(b, i, n - 1);
      ReadFunctionBack(b, init.index);
      Slices(b, i, i, init.index, r.index);
      assert b[i..i] == [];
    }
  }

  lemma ReadFunctionIndex(b: Buffer, i: nat)
    ensures ReadFunction(b, i).Got? ==> i <= ReadFunction(b, i).index
  {
  }

  /** The other direction of the round trip: whatever bytes are accepted as contract data, writing the data again gives
      exactly those bytes. */
  lemma PublicDataReadBack(b: Buffer, i: nat)
    requires var r := ReadPublicData(b, i); r.Got? && r.index <= |b| && FunctionsInRange(r.value.publicFunctions)
    ensures var r := ReadPublicData(b, i); DataInRange(r.value) && i <= r.index && b[i..r.index] == DataBytes(r.value)
  {
    PublicDataSteps(b, i);
    var r, d, n := ReadPublicData(b, i), ReadContractData(b, i).value, ReadNumber(b, i + 52).value;
    hide ReadPublicData; hide ReadFunctions; hide FunctionsBytes; hide U32BE; hide ReadNumber; hide ReadContractData; hide FunctionsInRange;
    hide IsAddress;
    ReadContractDataBack(b, i);
    ReadNumberBack(b, i + 52);
    ReadFunctionsBack(b, i + 56, n);
    Slices(b, i, i + 52, i + 56, r.index);
  }

  lemma PublicDataSteps(b: Buffer, i: nat)
    requires ReadPublicData(b, i).Got?
    ensures var r, d, n := ReadPublicData(b, i), ReadContractData(b, i), ReadNumber(b, i + 52);
      && d == Got(r.value.contractData, i + 52) && n.Got? && n.index == i + 56
      && ReadFunctions(b, i + 56, n.value) == Got(r.value.publicFunctions, r.index) && r.value.publicFunctions != []
  {
    hide ReadFunctions; hide ToBigIntBE; hide ReadU32BE; hide Slice;
  }

  lemma Slices(b: Buffer, i: nat, j: nat, k: nat, l: nat)
    requires i <= j <= k <= l <= |b|
    ensures b[i..l] == b[i..j] + (b[j..k] + b[k..l])
  {
  }

  lemma ReadContractDataBack(b: Buffer, i: nat)
    requires ReadContractData(b, i).Got? && i + 52 <= |b|
    ensures var d := ReadContractData(b, i).value;
      && IsAddress(d.contractAddress) && |d.portalContractAddress| == ETH_BYTES
      && b[i..i + 52] == d.contractAddress + d.portalContractAddress
  {
    hide ToBigIntBE;
    assert b[i..i + 52] == b[i..i + 32] + b[i + 32..i + 52];
  }

  // Execution requests.

  datatype FunctionData = FunctionData(selector: Buffer, isPrivate: bool, isConstructor: bool)
  datatype Deployment = Deployment(keyX: nat, keyY: nat, vkHash: nat, treeRoot: nat, salt: nat, portal: Buffer)
  datatype TxContext = TxContext(isFeePayment: bool, isRebate: bool, isDeployment: bool, deployment: Deployment)
  datatype TxExecutionRequest = TxExecutionRequest(from: Buffer, to: Buffer, functionData: FunctionData, args: seq<nat>,
                                                   nonce: nat, txContext: TxContext, chainId: nat)

  /** Nothing keeps a field element below the modulus; what the codec needs is that it fits 32 bytes. */
  predicate FitsField(x: nat) {
    x < Pow16(2 * FIELD_BYTES)
  }

  predicate ArgsInRange(args: seq<nat>) {
    forall i :: 0 <= i < |args| ==> FitsField(args[i])
  }

  predicate DeploymentInRange(d: Deployment) {
    && FitsField(d.keyX) && FitsField(d.keyY) && d.keyX < MODULUS && d.keyY < MODULUS
    && FitsField(d.vkHash) && FitsField(d.treeRoot) && FitsField(d.salt) && |d.portal| == ETH_BYTES
  }

  predicate RequestInRange(r: TxExecutionRequest) {
    && IsAddress(r.from) && IsAddress(r.to) && |r.functionData.selector| == SELECTOR_BYTES
    && |r.args| < U32_LIMIT && ArgsInRange(r.args) && FitsField(r.nonce) && FitsField(r.chainId)
    && DeploymentInRange(r.txContext.deployment)
  }

  function FrBytes(x: nat): Buffer {
    ToBufferBE(x, FIELD_BYTES)
  }

  function ArgsBytes(args: seq<nat>): Buffer {
    if args == [] then [] else ArgsBytes(args[..|args| - 1]) + FrBytes(args[|args| - 1])
  }

  function FunctionDataBytes(f: FunctionData): Buffer {
    f.selector + (BoolBytes(f.isPrivate) + BoolBytes(f.isConstructor))
  }

  /** The portal address is written with 12 zero bytes before it. */
  function DeploymentBytes(d: Deployment): Buffer {
    FrBytes(d.keyX) + (FrBytes(d.keyY) + (FrBytes(d.vkHash) + (FrBytes(d.treeRoot) + (FrBytes(d.salt) + (Zeros(12) + d.portal)))))
  }

  function ContextBytes(c: TxContext): Buffer {
    BoolBytes(c.isFeePayment) + (BoolBytes(c.isRebate) + (BoolBytes(c.isDeployment) + DeploymentBytes(c.deployment)))
  }

  function RequestBytes(r: TxExecutionRequest): Buffer
    requires |r.args| < U32_LIMIT
  {
    r.from + (r.to + (FunctionDataBytes(r.functionData) +
      ((U32BE(|r.args|) + ArgsBytes(r.args)) + (FrBytes(r.nonce) + (ContextBytes(r.txContext) + FrBytes(r.chainId))))))
  }

  function ReadFunctionData(b: Buffer, i: nat): Reading<FunctionData> {
    var (selector, j) :- ReadBytes(b, i, SELECTOR_BYTES);
    var (isPrivate, k) :- ReadBoolean(b, j);
    var (isConstructor, m) :- ReadBoolean(b, k);
    if |selector| == SELECTOR_BYTES then Got(FunctionData(selector, isPrivate, isConstructor), m) else Threw
  }

  function ReadArgs(b: Buffer, i: nat, n: nat): Reading<seq<nat>> {
    if n == 0 then Got([], i)
    else
      var (args, j) :- ReadArgs(b, i, n - 1);
      var (x, k) :- ReadFr(b, j);
      Got(args + [x], k)
  }

  /** The public key is read as a curve point, whose constructor refuses coordinates that are not field elements;
      the portal address goes through a field element and back. */
  function ReadDeployment(b: Buffer, i: nat): Reading<Deployment> {
    var (point, j) :- ReadBytes(b, i, 2 * FIELD_BYTES);
    var x, y := ToBigIntBE(Slice(point, 0, FIELD_BYTES)), ToBigIntBE(Slice(point, FIELD_BYTES, FIELD_BYTES));
    if x >= MODULUS || y >= MODULUS then Threw
    else
      var (vkHash, k) :- ReadFr(b, j);
      var (treeRoot, l) :- ReadFr(b, k);
      var (salt, m) :- ReadFr(b, l);
      var (bytes, n) :- ReadBytes(b, m, FIELD_BYTES);
      var (eth, _) :- MakeEth(bytes);
      if |eth| != ETH_BYTES then Threw
      else Got(Deployment(x, y, vkHash, treeRoot, salt, FrBytes(ToBigIntBE(Zeros(12) + eth))[12..]), n)
  }

  function ReadContext(b: Buffer, i: nat): Reading<TxContext> {
    var (isFeePayment, j) :- ReadBoolean(b, i);
    var (isRebate, k) :- ReadBoolean(b, j);
    var (isDeployment, l) :- ReadBoolean(b, k);
    var (deployment, m) :- ReadDeployment(b, l);
    Got(TxContext(isFeePayment, isRebate, isDeployment, deployment), m)
  }

  function ReadRequest(b: Buffer, i: nat): Reading<TxExecutionRequest> {
    var (from, j) :- ReadAddress(b, i);
    var (to, k) :- ReadAddress(b, j);
    var (functionData, l) :- ReadFunctionData(b, k);
    var (n, m) :- ReadNumber(b, l);
    var (args, o) :- ReadArgs(b, m, n);
    var (nonce, p) :- ReadFr(b, o);
    var (txContext, q) :- ReadContext(b, p);
    var (chainId, r) :- ReadFr(b, q);
    Got(TxExecutionRequest(from, to, functionData, args, nonce, txContext, chainId), r)
  }

  // Round trips, at any position in a longer buffer.

  ghost predicate Has(b: Buffer, i: nat, s: Buffer) {
    i + |s| <= |b| && b[i..i + |s|] == s
  }

  lemma HasParts(b: Buffer, i: nat, s: Buffer, t: Buffer)
    requires Has(b, i, s + t)
    ensures Has(b, i, s) && Has(b, i + |s|, t)
  {
    assert b[i..i + |s|] == b[i..i + |s + t|][..|s|] == s;
    assert b[i + |s|..i + |s| + |t|] == b[i..i + |s + t|][|s|..] == t;
  }

  lemma ReadsNumber(b: Buffer, i: nat, n: nat)
    requires n < U32_LIMIT && Has(b, i, U32BE(n))
    ensures ReadNumber(b, i) == Got(n, i + 4)
  {
    assert b[i..i + 4] == U32BE(n) == U32BE(n) + [];
    U32RoundTrip(n, []);
  }

  lemma ReadsSlice(b: Buffer, i: nat, s: Buffer)
    requires Has(b, i, s)
    ensures Slice(b, i, |s|) == s
  {
  }

  lemma ReadsBool(b: Buffer, i: nat, x: bool)
    requires Has(b, i, BoolBytes(x))
    ensures ReadBoolean(b, i) == Got(x, i + 1)
  {
    assert b[i] == b[i..i + 1][0];
  }

  lemma ReadsFr(b: Buffer, i: nat, x: nat)
    requires FitsField(x) && Has(b, i, FrBytes(x))
    ensures ReadFr(b, i) == Got(x, i + FIELD_BYTES)
  {
    hide ToBigIntBE; hide ToBufferBE; hide Pow16;
    ReadsSlice(b, i, FrBytes(x));
    BigEndianRoundTrip(x, FIELD_BYTES);
  }

  lemma ReadsFunction(b: Buffer, i: nat, f: EncodedContractFunction)
    requires FunctionInRange(f) && Has(b, i, FunctionBytes(f))
    ensures ReadFunction(b, i) == Got(f, i + |FunctionBytes(f)|)
  {
    HasParts(b, i, f.functionSelector, U32BE(|f.bytecode|) + f.bytecode);
    HasParts(b, i + 4, U32BE(|f.bytecode|), f.bytecode);
    ReadsSlice(b, i, f.functionSelector);
    ReadsNumber(b, i + 4, |f.bytecode|);
    ReadsSlice(b, i + 8, f.bytecode);
  }

  lemma {:induction false} ReadsFunctions(b: Buffer, i: nat, fs: seq<EncodedContractFunction>)
    requires FunctionsInRange(fs) && Has(b, i, FunctionsBytes(fs))
    ensures ReadFunctions(b, i, |fs|) == Got(fs, i + |FunctionsBytes(fs)|)
    decreases |fs|
  {
    hide FunctionBytes; hide ReadFunction; hide FunctionInRange; hide Has; hide FunctionsBytes; hide ReadFunctions; hide FunctionsInRange;
    if fs == [] {
      NoFunctions(b, i);
    } else {
      var init, last := fs[..|fs| - 1], fs[|fs| - 1];
      FunctionsSplit(fs);
      HasParts(b, i, FunctionsBytes(init), FunctionBytes(last));
      ReadsFunctions(b, i, init);
      ReadsFunction(b, i + |FunctionsBytes(init)|, last);
      FunctionsStep(b, i, init, last, i + |FunctionsBytes(init)|, i + |FunctionsBytes(fs)|);
      assert fs == init + [last];
    }
  }

  lemma NoFunctions(b: Buffer, i: nat)
    ensures FunctionsInRange([]) && FunctionsBytes([]) == [] && ReadFunctions(b, i, 0) == Got([], i)
  {
  }

  lemma FunctionsSplit(fs: seq<EncodedContractFunction>)
    requires FunctionsInRange(fs) && fs != []
    ensures FunctionsInRange(fs[..|fs| - 1]) && FunctionInRange(fs[|fs| - 1])
    ensures FunctionsBytes(fs) == FunctionsBytes(fs[..|fs| - 1]) + FunctionBytes(fs[|fs| - 1])
  {
    hide FunctionBytes;
  }

  lemma FunctionsStep(b: Buffer, i: nat, fs: seq<EncodedContractFunction>, f: EncodedContractFunction, j: nat, k: nat)
    requires ReadFunctions(b, i, |fs|) == Got(fs, j) && ReadFunction(b, j) == Got(f, k)
    ensures ReadFunctions(b, i, |fs| + 1) == Got(fs + [f], k)
  {
    hide ReadFunction;
  }

  lemma ReadsAddress(b: Buffer, i: nat, a: Buffer)
    requires IsAddress(a) && Has(b, i, a)
    ensures ReadAddress(b, i) == Got(a, i + FIELD_BYTES)
  {
    ReadsSlice(b, i, a);
  }

  /** Contract data with its functions is read back, and exactly its bytes are consumed. */
  lemma PublicDataRoundTrip(d: ContractPublicData, before: Buffer, after: Buffer)
    requires DataInRange(d)
    ensures ReadPublicData(before + DataBytes(d) + after, |before|) == Got(d, |before| + |DataBytes(d)|)
  {
    hide ReadFunctions; hide FunctionsBytes; hide ReadAddress; hide IsAddress; hide U32BE; hide ReadNumber; hide Slice;
    var b, i := before + DataBytes(d) + after, |before|;
    var c := d.contractData;
    var fs := FunctionsBytes(d.publicFunctions);
    assert Has(b, i, DataBytes(d));
    HasParts(b, i, c.contractAddress + c.portalContractAddress, U32BE(|d.publicFunctions|) + fs);
    HasParts(b, i, c.contractAddress, c.portalContractAddress);
    AddressLength(c.contractAddress);
    ReadsAddress(b, i, c.contractAddress);
    ReadsSlice(b, i + 32, c.portalContractAddress);
    HasParts(b, i + 52, U32BE(|d.publicFunctions|), fs);
    ReadsNumber(b, i + 52, |d.publicFunctions|);
    ReadsFunctions(b, i + 56, d.publicFunctions);
  }

  lemma AddressLength(a: Buffer)
    requires IsAddress(a)
    ensures |a| == FIELD_BYTES
  {
  }

  lemma ReadsFunctionData(b: Buffer, i: nat, f: FunctionData)
    requires |f.selector| == SELECTOR_BYTES && Has(b, i, FunctionDataBytes(f))
    ensures ReadFunctionData(b, i) == Got(f, i + 6) && |FunctionDataBytes(f)| == 6
  {
    HasParts(b, i, f.selector, BoolBytes(f.isPrivate) + BoolBytes(f.isConstructor));
    HasParts(b, i + 4, BoolBytes(f.isPrivate), BoolBytes(f.isConstructor));
    ReadsSlice(b, i, f.selector);
    ReadsBool(b, i + 4, f.isPrivate);
    ReadsBool(b, i + 5, f.isConstructor);
  }

  lemma DataLength(f: FunctionData)
    ensures |FunctionDataBytes(f)| == |f.selector| + 2
  {
  }

  lemma ContextLength(c: TxContext)
    requires |c.deployment.portal| == ETH_BYTES
    ensures |ContextBytes(c)| == 195
  {
    hide ToBufferBE;
  }

  lemma {:induction false} ReadsArgs(b: Buffer, i: nat, args: seq<nat>)
    requires ArgsInRange(args) && Has(b, i, ArgsBytes(args))
    ensures ReadArgs(b, i, |args|) == Got(args, i + |ArgsBytes(args)|)
    decreases |args|
  {
    hide FitsField; hide FrBytes; hide ReadFr;
    if args != [] {
      var init, last := args[..|args| - 1], args[|args| - 1];
      HasParts(b, i, ArgsBytes(init), FrBytes(last));
      ReadsArgs(b, i, init);
      ReadsFr(b, i + |ArgsBytes(init)|, last);
      FrLength(last);
      assert args == init + [last];
    }
  }

  lemma FrLength(x: nat)
    ensures |FrBytes(x)| == FIELD_BYTES
  {
  }

  /** An address survives the detour through a field element. */
  lemma PortalThroughField(portal: Buffer)
    requires |portal| == ETH_BYTES
    ensures FrBytes(ToBigIntBE(Zeros(12) + portal))[12..] == portal
  {
    hide ToBufferBE; hide ToBigIntBE;
    BufferRoundTrip(Zeros(12) + portal);
  }

  lemma ReadsPoint(b: Buffer, i: nat, x: nat, y: nat)
    requires FitsField(x) && FitsField(y) && Has(b, i, FrBytes(x)) && Has(b, i + 32, FrBytes(y))
    ensures var point := Slice(b, i, 64);
      ToBigIntBE(Slice(point, 0, FIELD_BYTES)) == x && ToBigIntBE(Slice(point, FIELD_BYTES, FIELD_BYTES)) == y
  {
    hide ToBufferBE; hide ToBigIntBE; hide FitsField;
    ReadsFr(b, i, x);
    ReadsFr(b, i + 32, y);
    var point := Slice(b, i, 64);
    assert Slice(point, 0, 32) == Slice(b, i, 32);
    assert Slice(point, 32, 32) == Slice(b, i + 32, 32);
  }

  lemma ReadsDeployment(b: Buffer, i: nat, d: Deployment)
    requires DeploymentInRange(d) && Has(b, i, DeploymentBytes(d))
    ensures ReadDeployment(b, i) == Got(d, i + 192) && |DeploymentBytes(d)| == 192
  {
    hide FrBytes; hide FitsField; hide ToBigIntBE; hide ReadFr; hide Slice; hide Has; hide Zeros;
    FrLength(d.keyX); FrLength(d.keyY); FrLength(d.vkHash); FrLength(d.treeRoot); FrLength(d.salt);
    var f := Zeros(12) + d.portal;
    var e := FrBytes(d.salt) + f;
    var c := FrBytes(d.treeRoot) + e;
    var a := FrBytes(d.vkHash) + c;
    HasParts(b, i, FrBytes(d.keyX), FrBytes(d.keyY) + a);
    HasParts(b, i + 32, FrBytes(d.keyY), a);
    HasParts(b, i + 64, FrBytes(d.vkHash), c);
    HasParts(b, i + 96, FrBytes(d.treeRoot), e);
    HasParts(b, i + 128, FrBytes(d.salt), f);
    ReadsPoint(b, i, d.keyX, d.keyY);
    ReadsFr(b, i + 64, d.vkHash);
    ReadsFr(b, i + 96, d.treeRoot);
    ReadsFr(b, i + 128, d.salt);
    ReadsSlice(b, i + 160, f);
    PortalThroughField(d.portal);
    assert f[..12] == Zeros(12) && f[12..] == d.portal;
  }

  lemma ReadsContext(b: Buffer, i: nat, c: TxContext)
    requires DeploymentInRange(c.deployment) && Has(b, i, ContextBytes(c))
    ensures ReadContext(b, i) == Got(c, i + 195) && |ContextBytes(c)| == 195
  {
    hide DeploymentInRange; hide DeploymentBytes; hide ReadDeployment; hide ReadBoolean; hide Has;
    var d := DeploymentBytes(c.deployment);
    HasParts(b, i, BoolBytes(c.isFeePayment), BoolBytes(c.isRebate) + (BoolBytes(c.isDeployment) + d));
    HasParts(b, i + 1, BoolBytes(c.isRebate), BoolBytes(c.isDeployment) + d);
    HasParts(b, i + 2, BoolBytes(c.isDeployment), d);
    ReadsBool(b, i, c.isFeePayment);
    ReadsBool(b, i + 1, c.isRebate);
    ReadsBool(b, i + 2, c.isDeployment);
    ReadsDeployment(b, i + 3, c.deployment);
  }

  /** Sender, recipient, function data, number of arguments, arguments, nonce, context and chain id, and where each of
      them begins. */
  lemma RequestParts(b: Buffer, i: nat, r: TxExecutionRequest)
    requires RequestInRange(r) && Has(b, i, RequestBytes(r))
    ensures Has(b, i, r.from) && Has(b, i + 32, r.to) && Has(b, i + 64, FunctionDataBytes(r.functionData))
    ensures Has(b, i + 70, U32BE(|r.args|)) && Has(b, i + 74, ArgsBytes(r.args))
    ensures var j := i + 74 + |ArgsBytes(r.args)|;
      && Has(b, j, FrBytes(r.nonce)) && Has(b, j + 32, ContextBytes(r.txContext)) && Has(b, j + 227, FrBytes(r.chainId))
      && i + |RequestBytes(r)| == j + 259
  {
    AddressLength(r.from);
    AddressLength(r.to);
    FrLength(r.nonce);
    FrLength(r.chainId);
    DataLength(r.functionData);
    ContextLength(r.txContext);
    hide Has; hide IsAddress; hide FunctionDataBytes; hide ArgsBytes; hide FrBytes; hide ContextBytes; hide U32BE;
    hide FitsField; hide ArgsInRange; hide DeploymentInRange;
    EightParts(b, i, r.from, r.to, FunctionDataBytes(r.functionData), U32BE(|r.args|), ArgsBytes(r.args),
               FrBytes(r.nonce), ContextBytes(r.txContext), FrBytes(r.chainId));
  }

  lemma EightParts(b: Buffer, i: nat, p: Buffer, q: Buffer, r: Buffer, s: Buffer, t: Buffer, u: Buffer, v: Buffer, w: Buffer)
    requires Has(b, i, p + (q + (r + ((s + t) + (u + (v + w))))))
    ensures Has(b, i, p) && Has(b, i + |p|, q) && Has(b, i + |p| + |q|, r)
    ensures var j := i + |p| + |q| + |r|; Has(b, j, s) && Has(b, j + |s|, t)
    ensures var k := i + |p| + |q| + |r| + |s| + |t|; Has(b, k, u) && Has(b, k + |u|, v) && Has(b, k + |u| + |v|, w)
  {
    hide Has;
    var tail := (s + t) + (u + (v + w));
    HasParts(b, i, p, q + (r + tail));
    HasParts(b, i + |p|, q, r + tail);
    HasParts(b, i + |p| + |q|, r, tail);
    var j := i + |p| + |q| + |r|;
    HasParts(b, j, s + t, u + (v + w));
    HasParts(b, j, s, t);
    HasParts(b, j + |s| + |t|, u, v + w);
    HasParts(b, j + |s| + |t| + |u|, v, w);
  }

  /** An execution request with its arguments is read back, and exactly its bytes are consumed. */
  lemma RequestRoundTrip(r: TxExecutionRequest, before: Buffer, after: Buffer)
    requires RequestInRange(r)
    ensures ReadRequest(before + RequestBytes(r) + after, |before|) == Got(r, |before| + |RequestBytes(r)|)
  {
    var b, i := before + RequestBytes(r) + after, |before|;
    assert Has(b, i, RequestBytes(r));
    hide *;
    RequestLimits(r);
    RequestParts(b, i, r);
    RequestReads(b, i, r);
  }

  lemma RequestLimits(r: TxExecutionRequest)
    requires RequestInRange(r)
    ensures IsAddress(r.from) && IsAddress(r.to) && |r.functionData.selector| == SELECTOR_BYTES
    ensures |r.args| < U32_LIMIT && ArgsInRange(r.args) && FitsField(r.nonce) && FitsField(r.chainId)
    ensures DeploymentInRange(r.txContext.deployment) && |r.txContext.deployment.portal| == ETH_BYTES
  {
  }

  lemma RequestReads(b: Buffer, i: nat, r: TxExecutionRequest)
    requires IsAddress(r.from) && IsAddress(r.to) && |r.functionData.selector| == SELECTOR_BYTES
    requires |r.args| < U32_LIMIT && ArgsInRange(r.args) && FitsField(r.nonce) && FitsField(r.chainId)
    requires DeploymentInRange(r.txContext.deployment)
    requires Has(b, i, r.from) && Has(b, i + 32, r.to) && Has(b, i + 64, FunctionDataBytes(r.functionData))
    requires Has(b, i + 70, U32BE(|r.args|)) && Has(b, i + 74, ArgsBytes(r.args))
    requires var j := i + 74 + |ArgsBytes(r.args)|;
      Has(b, j, FrBytes(r.nonce)) && Has(b, j + 32, ContextBytes(r.txContext)) && Has(b, j + 227, FrBytes(r.chainId))
    ensures ReadRequest(b, i) == Got(r, i + 74 + |ArgsBytes(r.args)| + 259)
  {
    hide IsAddress; hide ReadAddress; hide FunctionDataBytes; hide ReadFunctionData; hide ArgsBytes; hide ReadArgs; hide FrBytes; hide ReadFr;
    hide ContextBytes; hide ReadContext; hide FitsField; hide ArgsInRange; hide DeploymentInRange; hide U32BE; hide ReadNumber; hide Has;
    ReadsAddress(b, i, r.from);
    ReadsAddress(b, i + 32, r.to);
    ReadsFunctionData(b, i + 64, r.functionData);
    ReadsNumber(b, i + 70, |r.args|);
    ReadsArgs(b, i + 74, r.args);
    var j := i + 74 + |ArgsBytes(r.args)|;
    ReadsFr(b, j, r.nonce);
    ReadsContext(b, j + 32, r.txContext);
    ReadsFr(b, j + 227, r.chainId);
  }

  // What is written where.

  /** Selector, flags as one byte each, 1 for true. */
  lemma FunctionDataLayout(f: FunctionData)
    requires |f.selector| == SELECTOR_BYTES
    ensures var b := FunctionDataBytes(f);
      |b| == 6 && b[..4] == f.selector && b[4] == (if f.isPrivate then 1 else 0) && b[5] == (if f.isConstructor then 1 else 0)
  {
  }

  /** Flags as one byte each, then the deployment data. */
  lemma ContextLayout(c: TxContext)
    ensures var b := ContextBytes(c);
      && |b| >= 3 && b[0] == (if c.isFeePayment then 1 else 0) && b[1] == (if c.isRebate then 1 else 0)
      && b[2] == (if c.isDeployment then 1 else 0) && b[3..] == DeploymentBytes(c.deployment)
  {
    hide DeploymentBytes;
  }

  /** Public key, verification key hash, function tree root and salt in 32 bytes each, then the padded portal address. */
  lemma DeploymentLayout(d: Deployment)
    requires |d.portal| == ETH_BYTES
    ensures var b := DeploymentBytes(d);
      && |b| == 192 && b[..32] == ToBufferBE(d.keyX, 32) && b[32..64] == ToBufferBE(d.keyY, 32)
      && b[64..96] == ToBufferBE(d.vkHash, 32) && b[96..128] == ToBufferBE(d.treeRoot, 32)
      && b[128..160] == ToBufferBE(d.salt, 32) && b[160..172] == Zeros(12) && b[172..] == d.portal
  {
    FrLength(d.keyX); FrLength(d.keyY); FrLength(d.vkHash); FrLength(d.treeRoot); FrLength(d.salt);
    hide ToBufferBE; hide Zeros; hide Has;
    var b, p, q, r, s, t := DeploymentBytes(d), FrBytes(d.keyX), FrBytes(d.keyY), FrBytes(d.vkHash), FrBytes(d.treeRoot), FrBytes(d.salt);
    HasAll(b);
    SevenParts(b, p, q, r, s, t, Zeros(12), d.portal);
    HasIs(b, 0, p);
    HasIs(b, 32, q);
    HasIs(b, 64, r);
    HasIs(b, 96, s);
    HasIs(b, 128, t);
    HasIs(b, 160, Zeros(12));
    HasIs(b, 172, d.portal);
  }

  lemma SevenParts(b: Buffer, p: Buffer, q: Buffer, r: Buffer, s: Buffer, t: Buffer, u: Buffer, v: Buffer)
    requires Has(b, 0, p + (q + (r + (s + (t + (u + v))))))
    ensures Has(b, 0, p) && Has(b, |p|, q) && Has(b, |p| + |q|, r) && Has(b, |p| + |q| + |r|, s)
    ensures var j := |p| + |q| + |r| + |s|; Has(b, j, t) && Has(b, j + |t|, u) && Has(b, j + |t| + |u|, v)
  {
    hide Has;
    HasParts(b, 0, p, q + (r + (s + (t + (u + v)))));
    HasParts(b, |p|, q, r + (s + (t + (u + v))));
    HasParts(b, |p| + |q|, r, s + (t + (u + v)));
    HasParts(b, |p| + |q| + |r|, s, t + (u + v));
    var j := |p| + |q| + |r| + |s|;
    HasParts(b, j, t, u + v);
    HasParts(b, j + |t|, u, v);
  }

  lemma HasAll(b: Buffer)
    ensures Has(b, 0, b)
  {
  }

  lemma HasIs(b: Buffer, i: nat, s: Buffer)
    requires Has(b, i, s)
    ensures i + |s| <= |b| && b[i..i + |s|] == s
  {
  }

  lemma {:induction false} ArgsLength(args: seq<nat>)
    ensures |ArgsBytes(args)| == 32 * |args|
  {
    hide ToBufferBE;
    if args != [] { ArgsLength(args[..|args| - 1]); }
  }

  /** Argument k is in the k-th 32 bytes. */
  lemma {:induction false} ArgPlace(args: seq<nat>, k: nat)
    requires k < |args|
    ensures 32 * k + 32 <= |ArgsBytes(args)| && ArgsBytes(args)[32 * k..32 * k + 32] == ToBufferBE(args[k], 32)
    decreases |args|
  {
    hide ToBufferBE;
    var n := |args| - 1;
    ArgsLength(args[..n]);
    if k < n { ArgPlace(args[..n], k); }
  }

  /** Selector, bytecode length and bytecode. */
  lemma FunctionLayout(f: EncodedContractFunction)
    requires FunctionInRange(f)
    ensures var b := FunctionBytes(f);
      |b| == 8 + |f.bytecode| && b[..4] == f.functionSelector && b[4..8] == ToBufferBE(|f.bytecode|, 4) && b[8..] == f.bytecode
  {
    U32Bytes(|f.bytecode|);
    hide ToBufferBE; hide U32BE;
  }

  /** Function k stands after the functions before it. */
  lemma {:induction false} FunctionPlace(fs: seq<EncodedContractFunction>, k: nat)
    requires FunctionsInRange(fs) && k < |fs|
    ensures var at := |FunctionsBytes(fs[..k])|;
      at + |FunctionBytes(fs[k])| <= |FunctionsBytes(fs)| && FunctionsBytes(fs)[at..at + |FunctionBytes(fs[k])|] == FunctionBytes(fs[k])
    decreases |fs|
  {
    hide FunctionBytes; hide FunctionInRange;
    var n := |fs| - 1;
    if k < n {
      FunctionPlace(fs[..n], k);
      assert fs[..n][..k] == fs[..k];
    }
  }

  /** Contract address, 20-byte portal address, number of functions and functions. */
  lemma DataLayout(d: ContractPublicData)
    requires DataInRange(d)
    ensures var b := DataBytes(d);
      && |b| >= 56 && b[..32] == d.contractData.contractAddress && b[32..52] == d.contractData.portalContractAddress
      && b[52..56] == ToBufferBE(|d.publicFunctions|, 4) && b[56..] == FunctionsBytes(d.publicFunctions)
  {
    U32Bytes(|d.publicFunctions|);
    hide ToBufferBE; hide U32BE; hide FunctionsBytes; hide ToBigIntBE;
  }
}

/** The reader object over the functions of `Codecs`. */
module Readers {
  import opened Bytes
  import opened Codecs

  /** The reader object: each method advances the index and returns what its function says. */
  class BufferReader {
    const buffer: Buffer
    var index: nat

    constructor (buffer: Buffer, offset: nat)
      ensures this.buffer == buffer && index == offset
    {
      this.buffer, index := buffer, offset;
    }

    /** The index has moved even when reading beyond the end throws. */
    method ReadNumber() returns (r: Reading<nat>)
      modifies this
      ensures index == old(index) + 4 && r == Codecs.ReadNumber(buffer, old(index))
    {
      index := index + 4;
      if index > |buffer| { return Threw; }
      r := Got(ReadU32BE(buffer[index - 4..index]), index);
    }

    method ReadBytes(n: nat) returns (s: Buffer)
      modifies this
      ensures Got(s, index) == Codecs.ReadBytes(buffer, old(index), n)
      ensures |s| == n <==> n == 0 || old(index) + n <= |buffer|
    {
      index := index + n;
      s := Slice(buffer, index - n, n);
    }

    method ReadBoolean() returns (x: bool)
      modifies this
      ensures Got(x, index) == Codecs.ReadBoolean(buffer, old(index))
      ensures x <==> old(index) < |buffer| && buffer[old(index)] != 0
    {
      index := index + 1;
      x := index - 1 < |buffer| && buffer[index - 1] != 0;
    }

    method ReadBuffer() returns (r: Reading<Buffer>)
      modifies this
      ensures r == Codecs.ReadBuffer(buffer, old(index)) && (r.Got? ==> index == r.index)
    {
      var size := ReadNumber();
      if size.Threw? { return Threw; }
      var s := ReadBytes(size.value);
      r := Got(s, index);
    }

    /** `readVector(Fr)` */
    method ReadFrVector() returns (r: Reading<seq<nat>>)
      modifies this
      ensures r == var n := Codecs.ReadNumber(buffer, old(index)); if n.Threw? then Threw else ReadArgs(buffer, n.index, n.value)
      ensures r.Got? ==> index == r.index
    {
      hide ToBigIntBE;
      var size := ReadNumber();
      if size.Threw? { return Threw; }
      var result: seq<nat> := [];
      for i := 0 to size.value
        invariant ReadArgs(buffer, size.index, i) == Got(result, index)
      {
        var bytes := ReadBytes(FIELD_BYTES);
        result := result + [ToBigIntBE(bytes)];
      }
      r := Got(result, index);
    }

    /** `readVector(EncodedContractFunction)` */
    method ReadFunctionVector() returns (r: Reading<seq<EncodedContractFunction>>)
      modifies this
      ensures r == var n := Codecs.ReadNumber(buffer, old(index)); if n.Threw? then Threw else ReadFunctions(buffer, n.index, n.value)
      ensures r.Got? ==> index == r.index
    {
      var size := ReadNumber();
      if size.Threw? { return Threw; }
      var result: seq<EncodedContractFunction> := [];
      for i := 0 to size.value
        invariant ReadFunctions(buffer, size.index, i) == Got(result, index)
      {
        var selector := ReadBytes(SELECTOR_BYTES);
        var code := ReadBuffer();
        if code.Threw? {
          ThrewStays(buffer, size.index, i + 1, size.value);
          return Threw;
        }
        result := result + [EncodedContractFunction(selector, code.value)];
      }
      r := Got(result, index);
    }

    static lemma {:induction false} ThrewStays(b: Buffer, i: nat, k: nat, n: nat)
      requires k <= n && ReadFunctions(b, i, k).Threw?
      ensures ReadFunctions(b, i, n).Threw?
    {
      hide ReadFunction;
      if k < n { ThrewStays(b, i, k, n - 1); }
    }
  }
}
