/** The names under which the bridge keeps its blobs in non-volatile storage. */
module BridgeKeys {
  import opened HexText

  /** `endpoint_ids_array`. */
  const IDS_KEY: string := "b/epida"

  /** `endpoint_pesistent_info`. */
  function Key(id: nat): string {
    "b/" + Hex(id) + "/pi"
  }

  /** Different endpoints have different record keys, and none is the key of the id array. */
  lemma KeysApart(i: nat, j: nat)
    ensures Key(i) == Key(j) ==> i == j
    ensures Key(i) != IDS_KEY
  {
    var a, b := Hex(i), Hex(j);
    assert Key(i)[2..|Key(i)| - 3] == a && Key(j)[2..|Key(j)| - 3] == b;
    HexRoundTrip(i);
    HexRoundTrip(j);
    assert Key(i)[|Key(i)| - 1] == 'i' && IDS_KEY[|IDS_KEY| - 1] == 'a';
  }
}
