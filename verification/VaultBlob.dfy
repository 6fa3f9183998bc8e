/** The layered vault blob (src/fido/fido_vault.c): a credential payload sealed in one or two layers of
    authenticated encryption under a header that is bound to every layer. */
module VaultBlob {
  import opened Bytes

  const CHACHAPOLY: byte := 1
  const AESGCM: byte := 2
  const CHACHAPOLY_AESGCM: byte := 3
  const AESGCM_CHACHAPOLY: byte := 4

  const ID_BYTES: nat := 32
  const SERIAL_MAX: nat := 16
  const SERIAL_LEN_OFFSET: nat := 4 + ID_BYTES + ID_BYTES
  const SERIAL_OFFSET: nat := SERIAL_LEN_OFFSET + 1
  const ALGORITHM_OFFSET: nat := SERIAL_OFFSET + SERIAL_MAX
  const HEADER_LEN: nat := ALGORITHM_OFFSET + 1
  const NONCE_BYTES: nat := 12
  const TAG_BYTES: nat := 16
  const PLAIN_MAX: nat := 1024 + 512 + 256
  const MAGIC: seq<byte> := [0x50, 0x4B, 0x56, 1]

  datatype Status = Ok | WrongData | WrongLength | VerificationFailed | ExecError

  // hash gives the vault id of a vault key, layerKey the key of a layer; seal and unseal are the
  // authenticated encryption of an algorithm under key, nonce and associated data.
  datatype Crypto = Crypto(
    hash: seq<byte> -> seq<byte>,
    layerKey: (seq<byte>, seq<byte>, seq<byte>, byte, nat) -> seq<byte>,
    seal: (byte, seq<byte>, seq<byte>, seq<byte>, seq<byte>) -> (seq<byte>, seq<byte>),
    unseal: (byte, seq<byte>, seq<byte>, seq<byte>, seq<byte>, seq<byte>) -> Option<seq<byte>>)

  // Unsealing accepts exactly what sealing produces.
  ghost predicate Lawful(c: Crypto) {
    && (forall k :: |c.hash(k)| == ID_BYTES)
    && (forall a, k, n, h, p :: |c.seal(a, k, n, h, p).0| == |p| && |c.seal(a, k, n, h, p).1| == TAG_BYTES)
    && (forall a, k, n, h, p :: c.unseal(a, k, n, h, c.seal(a, k, n, h, p).0, c.seal(a, k, n, h, p).1) == Some(p))
    && (forall a, k, n, h, x, t ::
          c.unseal(a, k, n, h, x, t).Some? ==> c.seal(a, k, n, h, c.unseal(a, k, n, h, x, t).value) == (x, t))
  }

  // A seal that leaves the text as it is under a constant tag keeps these laws.
  const IDENTITY: Crypto := Crypto(
    k => Zeros(ID_BYTES), (k, h, n, a, i) => [],
    (a, k, n, h, p) => (p, Zeros(TAG_BYTES)), (a, k, n, h, x, t) => if t == Zeros(TAG_BYTES) then Some(x) else None)

  lemma IdentityIsLawful()
    ensures Lawful(IDENTITY)
  {
  }

  // ---------------------------------------------------------------- the format

  predicate ValidAlgorithm(algorithm: byte) {
    CHACHAPOLY <= algorithm <= AESGCM_CHACHAPOLY
  }

  function Layers(algorithm: byte): nat {
    if algorithm >= CHACHAPOLY_AESGCM then 2 else 1
  }

  function Layer(algorithm: byte, index: nat): byte {
    if algorithm == CHACHAPOLY_AESGCM then if index == 0 then CHACHAPOLY else AESGCM
    else if algorithm == AESGCM_CHACHAPOLY then if index == 0 then AESGCM else CHACHAPOLY
    else algorithm
  }

  function Header(vaultId: seq<byte>, credentialHash: seq<byte>, serial: seq<byte>, gap: seq<byte>, algorithm: byte)
      : (h: seq<byte>)
    requires |vaultId| == ID_BYTES == |credentialHash| && |serial| + |gap| == SERIAL_MAX
    ensures |h| == HEADER_LEN
  {
    MAGIC + vaultId + credentialHash + [|serial|] + serial + gap + [algorithm]
  }

  // The key of a layer depends on the credential hash in the header.
  function KeyOf(c: Crypto, kvault: seq<byte>, header: seq<byte>, layer: nat): seq<byte>
    requires |header| == HEADER_LEN
  {
    c.layerKey(kvault, c.hash(kvault), header[4 + ID_BYTES..SERIAL_LEN_OFFSET], header[ALGORITHM_OFFSET], layer)
  }

  function SealLayer(c: Crypto, kvault: seq<byte>, header: seq<byte>, nonces: seq<byte>, layer: nat, plain: seq<byte>)
      : (sealed: seq<byte>)
    requires |header| == HEADER_LEN && |nonces| >= NONCE_BYTES * (layer + 1)
  {
    var (text, tag) := c.seal(Layer(header[ALGORITHM_OFFSET], layer), KeyOf(c, kvault, header, layer),
                              nonces[NONCE_BYTES * layer..NONCE_BYTES * layer + NONCE_BYTES], header, plain);
    text + tag
  }

  // The blob of a payload under a given header: header, nonces, then the payload sealed layer by layer.
  function Blob(c: Crypto, kvault: seq<byte>, header: seq<byte>, nonces: seq<byte>, plain: seq<byte>): (b: seq<byte>)
    requires |header| == HEADER_LEN && |nonces| == NONCE_BYTES * Layers(header[ALGORITHM_OFFSET])
  {
    var inner := SealLayer(c, kvault, header, nonces, 0, plain);
    header + nonces + if Layers(header[ALGORITHM_OFFSET]) == 1 then inner
                      else SealLayer(c, kvault, header, nonces, 1, inner)
  }

  // ---------------------------------------------------------------- import

  function OpenLayer(c: Crypto, kvault: seq<byte>, header: seq<byte>, nonces: seq<byte>, layer: nat, sealed: seq<byte>)
      : Option<seq<byte>>
    requires |header| == HEADER_LEN && |nonces| >= NONCE_BYTES * (layer + 1) && |sealed| >= TAG_BYTES
  {
    var n := |sealed| - TAG_BYTES;
    c.unseal(Layer(header[ALGORITHM_OFFSET], layer), KeyOf(c, kvault, header, layer),
             nonces[NONCE_BYTES * layer..NONCE_BYTES * layer + NONCE_BYTES], header, sealed[..n], sealed[n..])
  }

  // The checks on the blob that need no key.
  predicate Shape(blob: seq<byte>) {
    && |blob| >= HEADER_LEN + NONCE_BYTES + TAG_BYTES
    && blob[..4] == MAGIC
    && ValidAlgorithm(blob[ALGORITHM_OFFSET])
    && blob[SERIAL_LEN_OFFSET] <= SERIAL_MAX
    && |blob| >= HEADER_LEN + (NONCE_BYTES + TAG_BYTES) * Layers(blob[ALGORITHM_OFFSET])
  }

  function NoncesOf(blob: seq<byte>): (nonces: seq<byte>)
    requires Shape(blob)
    ensures |nonces| == NONCE_BYTES * Layers(blob[ALGORITHM_OFFSET])
  {
    blob[HEADER_LEN..HEADER_LEN + NONCE_BYTES * Layers(blob[ALGORITHM_OFFSET])]
  }

  // vault_import_blob, up to the payload that is then parsed.
  function Import(c: Crypto, kvault: seq<byte>, blob: seq<byte>): (r: (Status, seq<byte>)) {
    if !Shape(blob) then (WrongData, [])
    else if c.hash(kvault) != blob[4..4 + ID_BYTES] then (VerificationFailed, [])
    else
      var layers := Layers(blob[ALGORITHM_OFFSET]);
      var header, nonces := blob[..HEADER_LEN], NoncesOf(blob);
      var sealed := blob[HEADER_LEN + NONCE_BYTES * layers..];
      if |sealed| - TAG_BYTES * layers > PLAIN_MAX then (WrongLength, [])
      else
        match OpenLayers(c, kvault, header, nonces, layers, sealed)
        case None => (ExecError, [])
        case Some(plain) => (Ok, plain)
  }

  // The outer layer first, if there are two.
  function OpenLayers(c: Crypto, kvault: seq<byte>, header: seq<byte>, nonces: seq<byte>, layers: nat,
                      sealed: seq<byte>)
      : Option<seq<byte>>
    requires |header| == HEADER_LEN && 1 <= layers && |nonces| == NONCE_BYTES * layers && |sealed| >= TAG_BYTES
  {
    var inner := if layers == 1 then Some(sealed) else OpenLayer(c, kvault, header, nonces, 1, sealed);
    if inner.None? || |inner.value| < TAG_BYTES then None
    else OpenLayer(c, kvault, header, nonces, 0, inner.value)
  }

  lemma SealOpens(c: Crypto, kvault: seq<byte>, header: seq<byte>, nonces: seq<byte>, layer: nat, plain: seq<byte>)
    requires Lawful(c) && |header| == HEADER_LEN && |nonces| >= NONCE_BYTES * (layer + 1)
    ensures var sealed := SealLayer(c, kvault, header, nonces, layer, plain);
            |sealed| == |plain| + TAG_BYTES && OpenLayer(c, kvault, header, nonces, layer, sealed) == Some(plain)
  {
  }

  lemma OpenSeals(c: Crypto, kvault: seq<byte>, header: seq<byte>, nonces: seq<byte>, layer: nat, sealed: seq<byte>)
    requires Lawful(c) && |header| == HEADER_LEN && |nonces| >= NONCE_BYTES * (layer + 1) && |sealed| >= TAG_BYTES
    ensures var plain := OpenLayer(c, kvault, header, nonces, layer, sealed);
            plain.Some? ==> SealLayer(c, kvault, header, nonces, layer, plain.value) == sealed
                            && |sealed| == |plain.value| + TAG_BYTES
  {
  }

  // A header that import accepts under this vault key.
  predicate Acceptable(c: Crypto, kvault: seq<byte>, header: seq<byte>) {
    && |header| == HEADER_LEN && header[..4] == MAGIC && header[4..4 + ID_BYTES] == c.hash(kvault)
    && ValidAlgorithm(header[ALGORITHM_OFFSET]) && header[SERIAL_LEN_OFFSET] <= SERIAL_MAX
  }

  // For all four algorithms, import inverts the blob layout and the order of the layers.
  lemma ImportInvertsBlob(c: Crypto, kvault: seq<byte>, header: seq<byte>, nonces: seq<byte>, plain: seq<byte>)
    requires Lawful(c) && Acceptable(c, kvault, header) && |plain| <= PLAIN_MAX
    requires |nonces| == NONCE_BYTES * Layers(header[ALGORITHM_OFFSET])
    ensures Import(c, kvault, Blob(c, kvault, header, nonces, plain)) == (Ok, plain)
  {
    var blob := Blob(c, kvault, header, nonces, plain);
    var inner := SealLayer(c, kvault, header, nonces, 0, plain);
    SealOpens(c, kvault, header, nonces, 0, plain);
    if Layers(header[ALGORITHM_OFFSET]) == 2 {
      SealOpens(c, kvault, header, nonces, 1, inner);
    }
    assert blob[..HEADER_LEN] == header;
    assert blob[..4] == header[..4] && blob[4..4 + ID_BYTES] == header[4..4 + ID_BYTES];
    assert NoncesOf(blob) == nonces;
  }

  // Import yields a payload if and only if the blob is, byte for byte, the blob of that payload under
  // its own header and nonces.
  lemma ImportIff(c: Crypto, kvault: seq<byte>, blob: seq<byte>, plain: seq<byte>)
    requires Lawful(c)
    ensures Import(c, kvault, blob) == (Ok, plain) <==>
              && Shape(blob) && Acceptable(c, kvault, blob[..HEADER_LEN]) && |plain| <= PLAIN_MAX
              && blob == Blob(c, kvault, blob[..HEADER_LEN], NoncesOf(blob), plain)
  {
    if Import(c, kvault, blob) == (Ok, plain) {
      var layers := Layers(blob[ALGORITHM_OFFSET]);
      var header, nonces := blob[..HEADER_LEN], NoncesOf(blob);
      var sealed := blob[HEADER_LEN + NONCE_BYTES * layers..];
      assert blob == header + nonces + sealed;
      var inner := if layers == 1 then Some(sealed) else OpenLayer(c, kvault, header, nonces, 1, sealed);
      OpenSeals(c, kvault, header, nonces, 0, inner.value);
      if layers == 2 {
        OpenSeals(c, kvault, header, nonces, 1, sealed);
      }
      assert header[..4] == blob[..4] && header[4..4 + ID_BYTES] == blob[4..4 + ID_BYTES];
    } else if Shape(blob) && Acceptable(c, kvault, blob[..HEADER_LEN]) && |plain| <= PLAIN_MAX
      && blob == Blob(c, kvault, blob[..HEADER_LEN], NoncesOf(blob), plain)
    {
      ImportInvertsBlob(c, kvault, blob[..HEADER_LEN], NoncesOf(blob), plain);
    }
  }

  // ---------------------------------------------------------------- the buffers

  // What vault_export_blob is given: the vault key if it loads, the payload, the hash of the requested
  // credential id, the serial number and fresh nonces.
  datatype Order = Order(
    algorithm: byte, kvault: Option<seq<byte>>, credentialHash: seq<byte>, serial: seq<byte>,
    nonces: seq<byte>, plain: seq<byte>)

  predicate WellFormed(o: Order) {
    && |o.credentialHash| == ID_BYTES && |o.serial| <= SERIAL_MAX
    && |o.nonces| == NONCE_BYTES * Layers(o.algorithm)
  }

  function TotalLen(o: Order): nat {
    HEADER_LEN + (NONCE_BYTES + TAG_BYTES) * Layers(o.algorithm) + |o.plain|
  }

  function ExportStatus(o: Order, capacity: nat): Status {
    if !ValidAlgorithm(o.algorithm) then WrongData
    else if o.kvault.None? || o.plain == [] || |o.plain| > PLAIN_MAX || TotalLen(o) > capacity then ExecError
    else Ok
  }

  // The header that is written into a buffer: a serial shorter than its field leaves what was there.
  function HeaderIn(c: Crypto, o: Order, buf: seq<byte>): (h: seq<byte>)
    requires WellFormed(o) && o.kvault.Some? && |c.hash(o.kvault.value)| == ID_BYTES && |buf| >= HEADER_LEN
    ensures |h| == HEADER_LEN
  {
    Header(c.hash(o.kvault.value), o.credentialHash, o.serial,
           buf[SERIAL_OFFSET + |o.serial|..ALGORITHM_OFFSET], o.algorithm)
  }

  // What an export writes under this order is what import takes back.
  lemma HeaderIsAcceptable(c: Crypto, o: Order, buf: seq<byte>)
    requires Lawful(c) && WellFormed(o) && o.kvault.Some? && ValidAlgorithm(o.algorithm) && |buf| >= HEADER_LEN
    ensures Acceptable(c, o.kvault.value, HeaderIn(c, o, buf))
    ensures HeaderIn(c, o, buf)[ALGORITHM_OFFSET] == o.algorithm
  {
  }

  // For every algorithm and every payload, whatever the buffer held before: what is exported is imported.
  lemma ImportInvertsExport(c: Crypto, o: Order, buf: seq<byte>)
    requires Lawful(c) && WellFormed(o) && ExportStatus(o, |buf|) == Ok
    ensures HeaderIn(c, o, buf)[ALGORITHM_OFFSET] == o.algorithm
    ensures Import(c, o.kvault.value, Blob(c, o.kvault.value, HeaderIn(c, o, buf), o.nonces, o.plain)) == (Ok, o.plain)
  {
    HeaderIsAcceptable(c, o, buf);
    ImportInvertsBlob(c, o.kvault.value, HeaderIn(c, o, buf), o.nonces, o.plain);
  }

  // Where each field of the header stands.
  lemma HeaderFields(c: Crypto, o: Order, buf: seq<byte>)
    requires Lawful(c) && WellFormed(o) && o.kvault.Some? && |buf| >= HEADER_LEN
    ensures var header := HeaderIn(c, o, buf);
            && |header| == 86 && header[..4] == [0x50, 0x4b, 0x56, 1]
            && header[4..36] == c.hash(o.kvault.value) && header[36..68] == o.credentialHash
            && header[68] == |o.serial| && header[69..69 + |o.serial|] == o.serial && header[85] == o.algorithm
            && forall i | 69 + |o.serial| <= i < 85 :: header[i] == buf[i]
  {
  }

  // Export succeeds if and only if the algorithm is one of the four, the vault key loads, the payload has 1 to
  // 1792 bytes, and the buffer has room for the header, a nonce and a tag for each layer, and the payload.
  lemma ExportIff(o: Order, capacity: nat)
    ensures var layers := if o.algorithm <= 2 then 1 else 2;
            && (ExportStatus(o, capacity) == Ok <==>
                  && 1 <= o.algorithm <= 4 && o.kvault.Some? && 1 <= |o.plain| <= 1792
                  && 86 + 28 * layers + |o.plain| <= capacity)
            && (ExportStatus(o, capacity) == WrongData <==> !(1 <= o.algorithm <= 4))
  {
    assert |o.plain| == 0 <==> o.plain == [];
  }

  // The key of a layer is derived from the vault key, the vault id, the credential, the algorithm and the
  // number of the layer.
  function KeyFor(c: Crypto, o: Order, layer: nat): seq<byte>
    requires o.kvault.Some?
  {
    c.layerKey(o.kvault.value, c.hash(o.kvault.value), o.credentialHash, o.algorithm, layer)
  }

  // With one layer the algorithm seals the payload; with two the first named cipher seals the payload and the
  // second what the first made, each with its own key and nonce, and both bind the whole header.
  lemma SealedBy(c: Crypto, o: Order, buf: seq<byte>)
    requires Lawful(c) && WellFormed(o) && ExportStatus(o, |buf|) == Ok
    ensures var header := HeaderIn(c, o, buf);
            var (text0, tag0) := c.seal(if o.algorithm == 3 then 1 else if o.algorithm == 4 then 2 else o.algorithm,
                                        KeyFor(c, o, 0), o.nonces[..12], header, o.plain);
            && header[ALGORITHM_OFFSET] == o.algorithm
            && Blob(c, o.kvault.value, header, o.nonces, o.plain) ==
               header + o.nonces +
               if o.algorithm <= 2 then text0 + tag0
               else
                 var (text1, tag1) := c.seal(if o.algorithm == 3 then 2 else 1, KeyFor(c, o, 1), o.nonces[12..], header,
                                             text0 + tag0);
                 text1 + tag1
  {
    hide HeaderIn, Lawful;
    HeaderFields(c, o, buf);
    assert o.algorithm > 2 ==> o.nonces[12..] == o.nonces[12..24];
  }

  // Under a vault key with another vault id nothing is opened.
  lemma OtherVaultIsRefused(c: Crypto, o: Order, buf: seq<byte>, kvault: seq<byte>)
    requires Lawful(c) && WellFormed(o) && ExportStatus(o, |buf|) == Ok && c.hash(kvault) != c.hash(o.kvault.value)
    ensures HeaderIn(c, o, buf)[ALGORITHM_OFFSET] == o.algorithm
    ensures Import(c, kvault, Blob(c, o.kvault.value, HeaderIn(c, o, buf), o.nonces, o.plain)) ==
            (VerificationFailed, [])
  {
    hide HeaderIn;
    HeaderFields(c, o, buf);
    var header := HeaderIn(c, o, buf);
    var blob := Blob(c, o.kvault.value, header, o.nonces, o.plain);
    BlobLength(c, o.kvault.value, header, o.nonces, o.plain);
    assert blob[..HEADER_LEN] == header;
    assert blob[..4] == header[..4] && blob[4..4 + ID_BYTES] == header[4..4 + ID_BYTES];
  }

  lemma BlobLength(c: Crypto, kvault: seq<byte>, header: seq<byte>, nonces: seq<byte>, plain: seq<byte>)
    requires Lawful(c) && |header| == HEADER_LEN && |nonces| == NONCE_BYTES * Layers(header[ALGORITHM_OFFSET])
    ensures |Blob(c, kvault, header, nonces, plain)| ==
            HEADER_LEN + (NONCE_BYTES + TAG_BYTES) * Layers(header[ALGORITHM_OFFSET]) + |plain|
  {
    hide SealLayer;
    SealOpens(c, kvault, header, nonces, 0, plain);
    if Layers(header[ALGORITHM_OFFSET]) == 2 {
      SealOpens(c, kvault, header, nonces, 1, SealLayer(c, kvault, header, nonces, 0, plain));
    }
  }

  lemma HeaderParts(c: Crypto, o: Order, buf: seq<byte>)
    requires WellFormed(o) && o.kvault.Some? && |c.hash(o.kvault.value)| == ID_BYTES && |buf| >= HEADER_LEN
    ensures var at := SERIAL_LEN_OFFSET + 1 + |o.serial|;
            && at <= ALGORITHM_OFFSET
            && HeaderIn(c, o, buf) ==
                 MAGIC + c.hash(o.kvault.value) + o.credentialHash + [|o.serial|] + o.serial
                   + buf[at..ALGORITHM_OFFSET] + [o.algorithm]
  {
  }

  lemma SplitTail(buf: seq<byte>, i: nat, j: nat)
    requires i <= j <= |buf|
    ensures buf[i..] == buf[i..j] + buf[j..]
  {
  }

  method WriteHeader(c: Crypto, o: Order, blob: array<byte>)
    requires WellFormed(o) && o.kvault.Some? && |c.hash(o.kvault.value)| == ID_BYTES && blob.Length >= HEADER_LEN
    modifies blob
    ensures blob[..] == HeaderIn(c, o, old(blob[..])) + old(blob[HEADER_LEN..])
  {
    hide HeaderIn;
    ghost var was := blob[..];
    HeaderParts(c, o, was);
    ghost var start: seq<byte> := MAGIC + c.hash(o.kvault.value) + o.credentialHash;
    WriteIds(blob, c.hash(o.kvault.value), o.credentialHash, was);
    var at := AppendBytes(blob, SERIAL_LEN_OFFSET, [|o.serial|], start, was);
    at := AppendBytes(blob, at, o.serial, start + [|o.serial|], was);
    ghost var gap: seq<byte> := was[at..ALGORITHM_OFFSET];
    ghost var written: seq<byte> := start + [|o.serial|] + o.serial;
    SplitTail(was, at, ALGORITHM_OFFSET);
    Assoc(written, gap, was[ALGORITHM_OFFSET..]);
    at := AppendBytes(blob, ALGORITHM_OFFSET, [o.algorithm], written + gap, was);
  }

  method WriteIds(blob: array<byte>, vaultId: seq<byte>, credentialHash: seq<byte>, ghost was: seq<byte>)
    requires |vaultId| == ID_BYTES == |credentialHash| && blob.Length >= HEADER_LEN && blob[..] == was
    modifies blob
    ensures blob[..] == MAGIC + vaultId + credentialHash + was[SERIAL_LEN_OFFSET..]
  {
    var at := AppendBytes(blob, 0, MAGIC, [], was);
    assert [] + MAGIC == MAGIC;
    at := AppendBytes(blob, at, vaultId, MAGIC, was);
    at := AppendBytes(blob, at, credentialHash, MAGIC + vaultId, was);
  }

  // picokeys_vault_encrypt_layer for one layer: text and tag go to offset `at`.
  method SealInto(c: Crypto, kvault: seq<byte>, header: seq<byte>, nonces: seq<byte>, layer: nat, plain: seq<byte>,
                  out: array<byte>, at: nat, ghost done: seq<byte>, ghost orig: seq<byte>)
    returns (next: nat)
    requires Lawful(c) && |header| == HEADER_LEN && |nonces| >= NONCE_BYTES * (layer + 1)
    requires at == |done| && at + |plain| + TAG_BYTES <= out.Length == |orig|
    requires out[..] == done + orig[at..]
    modifies out
    ensures next == at + |plain| + TAG_BYTES
    ensures out[..] == done + SealLayer(c, kvault, header, nonces, layer, plain) + orig[next..]
  {
    var (text, tag) := c.seal(Layer(header[ALGORITHM_OFFSET], layer), KeyOf(c, kvault, header, layer),
                              nonces[NONCE_BYTES * layer..NONCE_BYTES * layer + NONCE_BYTES], header, plain);
    next := AppendBytes(out, at, text, done, orig);
    next := AppendBytes(out, next, tag, done + text, orig);
    assert done + text + tag == done + (text + tag);
  }

  // picokeys_vault_decrypt_layer for one layer.
  method OpenInto(c: Crypto, kvault: seq<byte>, header: seq<byte>, nonces: seq<byte>, layer: nat, text: seq<byte>,
                  tag: seq<byte>, out: array<byte>)
    returns (ok: bool)
    requires Lawful(c) && |header| == HEADER_LEN && |nonces| >= NONCE_BYTES * (layer + 1)
    requires |tag| == TAG_BYTES && |text| <= out.Length
    modifies out
    ensures var plain := OpenLayer(c, kvault, header, nonces, layer, text + tag);
            ok == plain.Some? && (ok ==> out[..|text|] == plain.value)
  {
    var plain := c.unseal(Layer(header[ALGORITHM_OFFSET], layer), KeyOf(c, kvault, header, layer),
                          nonces[NONCE_BYTES * layer..NONCE_BYTES * layer + NONCE_BYTES], header, text, tag);
    assert (text + tag)[..|text|] == text && (text + tag)[|text|..] == tag;
    ok := plain.Some?;
    if ok {
      OpenSeals(c, kvault, header, nonces, layer, text + tag);
      Copy(out, 0, plain.value);
    }
  }

  // vault_export_blob once the payload is encoded.
  method Export(c: Crypto, o: Order, blob: array<byte>) returns (status: Status, len: nat)
    requires Lawful(c) && WellFormed(o)
    modifies blob
    ensures status == ExportStatus(o, blob.Length)
    ensures status == Ok ==>
              && len == TotalLen(o) <= blob.Length
              && HeaderIn(c, o, old(blob[..]))[ALGORITHM_OFFSET] == o.algorithm
              && blob[..] == Blob(c, o.kvault.value, HeaderIn(c, o, old(blob[..])), o.nonces, o.plain)
                             + old(blob[len..])
    ensures status != Ok ==> blob[..] == old(blob[..])
  {
    len := 0;
    if !ValidAlgorithm(o.algorithm) {
      return WrongData, len;
    }
    var layers := Layers(o.algorithm);
    var nonceLen := layers * NONCE_BYTES;
    var total := HEADER_LEN + nonceLen + |o.plain| + layers * TAG_BYTES;
    if o.kvault.None? || |o.plain| == 0 || |o.plain| > PLAIN_MAX || total > blob.Length {
      return ExecError, len;
    }
    len := FillBlob(c, o, blob);
    status := Ok;
  }

  method FillBlob(c: Crypto, o: Order, blob: array<byte>) returns (len: nat)
    requires Lawful(c) && WellFormed(o) && ExportStatus(o, blob.Length) == Ok
    modifies blob
    ensures len == TotalLen(o) <= blob.Length
    ensures HeaderIn(c, o, old(blob[..]))[ALGORITHM_OFFSET] == o.algorithm
    ensures blob[..] == Blob(c, o.kvault.value, HeaderIn(c, o, old(blob[..])), o.nonces, o.plain) + old(blob[len..])
  {
    hide HeaderIn, SealLayer, Acceptable;
    var kvault := o.kvault.value;
    ghost var was := blob[..];
    HeaderIsAcceptable(c, o, was);
    WriteHeader(c, o, blob);
    var header := blob[..HEADER_LEN];
    assert header == HeaderIn(c, o, was);
    len := AppendBytes(blob, HEADER_LEN, o.nonces, header, was);
    if Layers(o.algorithm) == 1 {
      len := SealInto(c, kvault, header, o.nonces, 0, o.plain, blob, len, header + o.nonces, was);
    } else {
      var inner := SealFirst(c, kvault, header, o.nonces, o.plain);
      len := SealInto(c, kvault, header, o.nonces, 1, inner, blob, len, header + o.nonces, was);
    }
  }

  // The first of two layers goes to a buffer of its own.
  method SealFirst(c: Crypto, kvault: seq<byte>, header: seq<byte>, nonces: seq<byte>, plain: seq<byte>)
    returns (inner: seq<byte>)
    requires Lawful(c) && |header| == HEADER_LEN && |nonces| >= NONCE_BYTES && |plain| <= PLAIN_MAX
    ensures inner == SealLayer(c, kvault, header, nonces, 0, plain) && |inner| == |plain| + TAG_BYTES
  {
    var intermediate := new byte[PLAIN_MAX + TAG_BYTES](_ => 0);
    var n := SealInto(c, kvault, header, nonces, 0, plain, intermediate, 0, [], intermediate[..]);
    inner := intermediate[..n];
    SealOpens(c, kvault, header, nonces, 0, plain);
  }

  // The layers of vault_import_blob; between two of them the text is in a buffer of its own.
  method OpenBoth(c: Crypto, kvault: seq<byte>, header: seq<byte>, nonces: seq<byte>, layers: nat, sealed: seq<byte>,
                  plainLen: nat, plain: array<byte>)
    returns (ok: bool)
    requires Lawful(c) && |header| == HEADER_LEN && 1 <= layers <= 2 && |nonces| == NONCE_BYTES * layers
    requires |sealed| == plainLen + TAG_BYTES * layers && plainLen <= PLAIN_MAX == plain.Length
    modifies plain
    ensures var payload := OpenLayers(c, kvault, header, nonces, layers, sealed);
            ok == payload.Some? && (ok ==> plain[..plainLen] == payload.value)
  {
    hide OpenLayer, Lawful;
    var tagAt := |sealed| - TAG_BYTES;
    assert sealed == sealed[..tagAt] + sealed[tagAt..];
    if layers == 1 {
      ok := OpenInto(c, kvault, header, nonces, 0, sealed[..tagAt], sealed[tagAt..], plain);
    } else {
      var intermediate := new byte[PLAIN_MAX + TAG_BYTES](_ => 0);
      ok := OpenInto(c, kvault, header, nonces, 1, sealed[..tagAt], sealed[tagAt..], intermediate);
      if ok {
        var inner := intermediate[..tagAt];
        assert inner == inner[..plainLen] + inner[plainLen..];
        ok := OpenInto(c, kvault, header, nonces, 0, inner[..plainLen], inner[plainLen..], plain);
      }
    }
  }

  // vault_import_blob up to the parsing of the payload, which is left in `plain`.
  method ImportInto(c: Crypto, kvault: seq<byte>, blob: seq<byte>, plain: array<byte>)
    returns (status: Status, len: nat)
    requires Lawful(c) && plain.Length == PLAIN_MAX
    modifies plain
    ensures status == Import(c, kvault, blob).0
    ensures status == Ok ==> len <= PLAIN_MAX && plain[..len] == Import(c, kvault, blob).1
  {
    hide OpenLayers, Lawful;
    len := 0;
    if |blob| < HEADER_LEN + NONCE_BYTES + TAG_BYTES || blob[..4] != MAGIC {
      return WrongData, len;
    }
    var algorithm := blob[ALGORITHM_OFFSET];
    if !ValidAlgorithm(algorithm) || blob[SERIAL_LEN_OFFSET] > SERIAL_MAX {
      return WrongData, len;
    }
    var layers := Layers(algorithm);
    var nonceLen := layers * NONCE_BYTES;
    if |blob| < HEADER_LEN + nonceLen + layers * TAG_BYTES {
      return WrongData, len;
    }
    if c.hash(kvault) != blob[4..4 + ID_BYTES] {
      return VerificationFailed, len;
    }
    var plainLen := |blob| - HEADER_LEN - nonceLen - layers * TAG_BYTES;
    if plainLen > PLAIN_MAX {
      return WrongLength, len;
    }
    var header, nonces := blob[..HEADER_LEN], blob[HEADER_LEN..HEADER_LEN + nonceLen];
    var ok := OpenBoth(c, kvault, header, nonces, layers, blob[HEADER_LEN + nonceLen..], plainLen, plain);
    if !ok {
      return ExecError, len;
    }
    len := plainLen;
    status := Ok;
  }
}
