/**
 * The receiving end of the erasure code, source/RSErasureDecoder.cpp. How symbols are combined is a function; that it
 * gives the data back is a condition on it.
 */
module ErasureDecoder {

  /** A symbol, or a key, as its bits. */
  type Symbol = seq<bool>

  type Rebuild = map<nat, Symbol> -> Symbol

  /** The symbols received by index, how many they are, and the data once it is decoded. */
  datatype Decoder = Decoder(received: map<nat, Symbol>, numReceived: nat, isDecoded: bool, data: Symbol)

  const EMPTY: Decoder := Decoder(map[], 0, false, [])

  predicate Counted(d: Decoder) {
    d.numReceived == |d.received|
  }

  /** A symbol that is new counts; one that is there already stays. */
  function WithSymbol(d: Decoder, index: nat, symbol: Symbol): (r: Decoder)
    ensures Counted(d) ==> Counted(r)
    ensures r.received.Keys == d.received.Keys + {index}
  {
    if index in d.received then d
    else d.(received := d.received[index := symbol], numReceived := d.numReceived + 1)
  }

  predicate CanDecode(d: Decoder, k: nat) {
    d.numReceived >= k
  }

  function Decoded(d: Decoder, k: nat, rebuild: Rebuild): (r: Decoder)
    ensures Counted(d) ==> Counted(r)
    ensures r.isDecoded <==> d.isDecoded || CanDecode(d, k)
  {
    if d.isDecoded || !CanDecode(d, k) then d else d.(isDecoded := true, data := rebuild(d.received))
  }

  /** All symbols received are symbols of the codeword. */
  ghost predicate PartOf(received: map<nat, Symbol>, codeword: seq<Symbol>) {
    forall i :: i in received ==> i < |codeword| && received[i] == codeword[i]
  }

  /** Any k symbols of the codeword give the data back. */
  ghost predicate Recovers(rebuild: Rebuild, k: nat, codeword: seq<Symbol>, data: Symbol) {
    forall m: map<nat, Symbol> :: PartOf(m, codeword) && |m| >= k ==> rebuild(m) == data
  }

  /** What the decoder holds belongs to one codeword, and is its data when it is decoded. */
  ghost predicate Honest(d: Decoder, k: nat, codeword: seq<Symbol>, data: Symbol) {
    Counted(d) && PartOf(d.received, codeword) && (d.isDecoded ==> d.data == data)
  }

  lemma SymbolKeepsHonest(d: Decoder, k: nat, codeword: seq<Symbol>, data: Symbol, i: nat)
    requires Honest(d, k, codeword, data) && i < |codeword|
    ensures Honest(WithSymbol(d, i, codeword[i]), k, codeword, data)
  {}

  lemma DecodingKeepsHonest(d: Decoder, k: nat, codeword: seq<Symbol>, data: Symbol, rebuild: Rebuild)
    requires Honest(d, k, codeword, data) && Recovers(rebuild, k, codeword, data)
    ensures Honest(Decoded(d, k, rebuild), k, codeword, data)
  {
    assert PartOf(d.received, codeword);
  }

  class RSErasureDecoder {
    const k: nat
    const rebuild: Rebuild
    var symbols: seq<Symbol>
    var data: Symbol
    var received: seq<bool>
    var numReceived: nat
    var isDecoded: bool

    ghost function View(): Decoder
      reads this
      requires |symbols| == |received|
    {
      Decoder(map i: nat | i < |received| && received[i] :: symbols[i], numReceived, isDecoded, data)
    }

    /** The count is that of the bits that are set. */
    ghost predicate Valid()
      reads this
    {
      |symbols| == |received| && Counted(View())
    }

    constructor (k: nat, length: nat, rebuild: Rebuild)
      ensures Valid() && View() == EMPTY && |received| == length && this.k == k && this.rebuild == rebuild
    {
      this.k, this.rebuild := k, rebuild;
      symbols, received := seq(length, _ => []), seq(length, _ => false);
      data, numReceived, isDecoded := [], 0, false;
    }

    /** setSymbol. */
    method SetSymbol(index: nat, symbol: Symbol) returns (canDecode: bool)
      requires Valid() && index < |received|
      modifies this`symbols, this`received, this`numReceived
      ensures Valid() && View() == WithSymbol(old(View()), index, symbol) && |received| == |old(received)|
      ensures canDecode == CanDecode(View(), k)
    {
      ghost var before := View();
      if !received[index] {
        received := received[index := true];
        symbols := symbols[index := symbol];
        numReceived := numReceived + 1;
        assert View().received == before.received[index := symbol];
      }
      canDecode := numReceived >= k;
    }

    /** decode: the data, if there are enough symbols. */
    method Decode() returns (ok: bool, decoded: Symbol)
      requires Valid()
      modifies this`data, this`isDecoded
      ensures Valid() && View() == Decoded(old(View()), k, rebuild)
      ensures ok == isDecoded && (ok ==> decoded == data)
    {
      ghost var before := View();
      decoded := [];
      if isDecoded {
        decoded := data;
      } else if numReceived >= k {
        data := rebuild(map i: nat | i < |received| && received[i] :: symbols[i]);
        isDecoded := true;
        decoded := data;
      }
      ok := isDecoded;
      assert View().received == before.received;
    }
  }
}
