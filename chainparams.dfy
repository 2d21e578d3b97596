// The network-dependent constants of the block-file scanner: which network's
// files are read, the four bytes that open every stored block, and the size
// bound a block record may claim.

module ChainParams {
  import opened Bytes

  datatype Network = Mainnet | Testnet | Regtest

  /** The network selected when no option says otherwise. */
  const DEFAULT_NETWORK: Network := Testnet

  /** The largest serialized block, in bytes; it sizes the scanner's buffer. */
  const MAX_BLOCK_SERIALIZED_SIZE: nat := 4_000_000

  const MESSAGE_START_SIZE: nat := 4

  /** The marker that precedes every block record in a network's block files. */
  function MessageStart(net: Network): (m: seq<byte>)
    ensures |m| == MESSAGE_START_SIZE
    // the mainnet and regtest markers use only bytes above the ASCII range
    ensures net != Testnet ==> forall i :: 0 <= i < |m| ==> m[i] >= 0x80
  {
    match net
    case Mainnet => [0xf9, 0xbe, 0xb4, 0xd9]
    case Testnet => [0x0b, 0x11, 0x09, 0x07]
    case Regtest => [0xfa, 0xbf, 0xb5, 0xda]
  }

  /** The marker names its network: already the first byte, the one the scanner
      searches for, differs between any two networks. */
  lemma MessageStartIdentifiesNetwork(a: Network, b: Network)
    ensures MessageStart(a)[0] == MessageStart(b)[0] <==> a == b
    ensures MessageStart(a) == MessageStart(b) <==> a == b
  {
    if MessageStart(a) == MessageStart(b) {
      assert MessageStart(a)[0] == MessageStart(b)[0];
    }
  }
}
