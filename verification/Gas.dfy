/** The cost estimates of gas.rs: folds of saturating 64-bit additions and products. */
module Gas {
  import opened Base
  import opened StateChanges

  datatype GasSchedule = GasSchedule(
    callBase: u64, publishBase: u64, publishPerByte: u64, readPerByte: u64, writePerByte: u64)

  function EncodedChunksLen(chunks: seq<Bytes>): u64 {
    if chunks == [] then 0 else SatAdd(EncodedChunksLen(chunks[..|chunks| - 1]), Sat(|chunks[|chunks| - 1]|))
  }

  function ValueLength(c: StateChange): nat {
    if c.value.Some? then |c.value.value| else 0
  }

  function StateChangeBytes(changes: seq<StateChange>): u64 {
    if changes == [] then 0 else
    var c := changes[|changes| - 1];
    SatAdd(SatAdd(StateChangeBytes(changes[..|changes| - 1]), Sat(|c.key|)), Sat(ValueLength(c)))
  }

  function EstimateCallGas(g: GasSchedule, typeArgs: seq<Bytes>, args: seq<Bytes>, changes: seq<StateChange>): u64 {
    var inputBytes := SatAdd(EncodedChunksLen(typeArgs), EncodedChunksLen(args));
    SatAdd(SatAdd(g.callBase, SatMul(inputBytes, g.readPerByte)), SatMul(StateChangeBytes(changes), g.writePerByte))
  }

  function EstimatePublishGas(g: GasSchedule, modules: seq<Bytes>, changes: seq<StateChange>): u64 {
    var publish := SatAdd(g.publishBase, SatMul(EncodedChunksLen(modules), g.publishPerByte));
    SatAdd(publish, SatMul(StateChangeBytes(changes), g.writePerByte))
  }

  function EstimateScriptGas(g: GasSchedule, bytecode: Bytes, typeArgs: seq<Bytes>, args: seq<Bytes>): u64 {
    var inputBytes := SatAdd(SatAdd(Sat(|bytecode|), EncodedChunksLen(typeArgs)), EncodedChunksLen(args));
    SatAdd(g.callBase, SatMul(inputBytes, g.readPerByte))
  }

  // ---- The estimates are the true costs, cut off once at the top ----

  /** Total length of a list of byte strings. */
  function TotalLength(chunks: seq<Bytes>): nat {
    if chunks == [] then 0 else TotalLength(chunks[..|chunks| - 1]) + |chunks[|chunks| - 1]|
  }

  function TotalChangeBytes(changes: seq<StateChange>): nat {
    if changes == [] then 0 else
    var c := changes[|changes| - 1];
    TotalChangeBytes(changes[..|changes| - 1]) + |c.key| + ValueLength(c)
  }

  lemma {:induction false} ChunksTotal(chunks: seq<Bytes>)
    ensures EncodedChunksLen(chunks) == Sat(TotalLength(chunks))
  {
    hide Sat, SatAdd;
    if chunks == [] {
      SatZero();
    } else {
      ChunksTotal(chunks[..|chunks| - 1]);
      SatSum(TotalLength(chunks[..|chunks| - 1]), |chunks[|chunks| - 1]|);
    }
  }

  lemma SatZero()
    ensures Sat(0) == 0
  {
  }

  lemma {:induction false} ChangesTotal(changes: seq<StateChange>)
    ensures StateChangeBytes(changes) == Sat(TotalChangeBytes(changes))
  {
    hide Sat, SatAdd;
    if changes == [] {
      SatZero();
    } else {
      var front, c := changes[..|changes| - 1], changes[|changes| - 1];
      ChangesTotal(front);
      SatSum(TotalChangeBytes(front), |c.key|);
      SatSum(TotalChangeBytes(front) + |c.key|, ValueLength(c));
    }
  }

  /** The publish estimate is base + bytes * rate + written bytes * rate, saturated only at the end. */
  lemma PublishEstimateExact(g: GasSchedule, modules: seq<Bytes>, changes: seq<StateChange>)
    ensures EstimatePublishGas(g, modules, changes) ==
      Sat(g.publishBase + TotalLength(modules) * g.publishPerByte + TotalChangeBytes(changes) * g.writePerByte)
  {
    hide SatMul, SatAdd, Product, Sat;
    var a, b := Product(TotalLength(modules), g.publishPerByte), Product(TotalChangeBytes(changes), g.writePerByte);
    ChunksTotal(modules);
    ChangesTotal(changes);
    SatProduct(TotalLength(modules), g.publishPerByte);
    SatProduct(TotalChangeBytes(changes), g.writePerByte);
    SatOfU64(g.publishBase);
    ProductIs(TotalLength(modules), g.publishPerByte);
    ProductIs(TotalChangeBytes(changes), g.writePerByte);
    SatSum(g.publishBase, a);
    SatSum(g.publishBase + a, b);
  }

  lemma CallEstimateExact(g: GasSchedule, typeArgs: seq<Bytes>, args: seq<Bytes>, changes: seq<StateChange>)
    ensures EstimateCallGas(g, typeArgs, args, changes) ==
      Sat(g.callBase + (TotalLength(typeArgs) + TotalLength(args)) * g.readPerByte
          + TotalChangeBytes(changes) * g.writePerByte)
  {
    hide SatMul, SatAdd, Product, Sat;
    var n := TotalLength(typeArgs) + TotalLength(args);
    ChunksTotal(typeArgs);
    ChunksTotal(args);
    SatSum(TotalLength(typeArgs), TotalLength(args));
    ChangesTotal(changes);
    SatProduct(n, g.readPerByte);
    SatProduct(TotalChangeBytes(changes), g.writePerByte);
    SatOfU64(g.callBase);
    ProductIs(n, g.readPerByte);
    ProductIs(TotalChangeBytes(changes), g.writePerByte);
    SatSum(g.callBase, Product(n, g.readPerByte));
    SatSum(g.callBase + Product(n, g.readPerByte), Product(TotalChangeBytes(changes), g.writePerByte));
  }

  lemma ScriptEstimateExact(g: GasSchedule, bytecode: Bytes, typeArgs: seq<Bytes>, args: seq<Bytes>)
    ensures EstimateScriptGas(g, bytecode, typeArgs, args) ==
      Sat(g.callBase + (|bytecode| + TotalLength(typeArgs) + TotalLength(args)) * g.readPerByte)
  {
    hide SatMul, SatAdd, Product, Sat;
    var n := |bytecode| + TotalLength(typeArgs) + TotalLength(args);
    ChunksTotal(typeArgs);
    ChunksTotal(args);
    SatSum(|bytecode|, TotalLength(typeArgs));
    SatSum(|bytecode| + TotalLength(typeArgs), TotalLength(args));
    SatProduct(n, g.readPerByte);
    SatOfU64(g.callBase);
    ProductIs(n, g.readPerByte);
    SatSum(g.callBase, Product(n, g.readPerByte));
  }
}
