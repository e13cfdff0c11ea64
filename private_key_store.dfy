/**
 * The private key store: one table keyed by key id whose rows carry a type
 * tag (node key, initial session key, subsequent session key).
 */
module PrivateKeyStore {
  import opened Common

  /** The type tag of a private key row. */
  datatype PrivateKeyType = Node | SessionInitial | SessionSubsequent

  /**
   * What relaynet-core hands to the store and gets back from it: node and
   * initial session keys come with a certificate, subsequent session keys
   * with the digest identifying the peer they are bound to.
   */
  datatype PrivateKeyData =
    | NodePrivateKeyData(keyDer: Bytes, certificateDer: Bytes)
    | InitialSessionPrivateKeyData(keyDer: Bytes, certificateDer: Bytes)
    | SubsequentSessionPrivateKeyData(keyDer: Bytes, recipientPublicKeyDigest: string)
  {
    function KeyType(): PrivateKeyType
    {
      match this
      case NodePrivateKeyData(_, _) => Node
      case InitialSessionPrivateKeyData(_, _) => SessionInitial
      case SubsequentSessionPrivateKeyData(_, _) => SessionSubsequent
    }
  }

  /** A row of the table: its two optional columns are null unless the key's type uses them. */
  datatype PrivateKeyRow = PrivateKeyRow(
    derSerialization: Bytes,
    certificateDer: Option<Bytes>,
    recipientPublicKeyDigest: Option<string>,
    keyType: PrivateKeyType)

  /** The columns each type's reader relies on are present. */
  predicate WellFormed(row: PrivateKeyRow)
  {
    (row.keyType == SessionSubsequent ==> row.recipientPublicKeyDigest.Some?) &&
    (row.keyType != SessionSubsequent ==> row.certificateDer.Some?)
  }

  /**
   * The row that saving `data` leaves under its id. The repository updates only
   * the columns the new entity defines, so over an existing row a column the
   * data does not carry keeps its stored value; on a new row it is null.
   */
  function SavedRow(existing: Option<PrivateKeyRow>, data: PrivateKeyData): (row: PrivateKeyRow)
    ensures WellFormed(row)
    ensures row.derSerialization == data.keyDer && row.keyType == data.KeyType()
    ensures !data.SubsequentSessionPrivateKeyData? ==> row.certificateDer == Some(data.certificateDer)
    ensures data.SubsequentSessionPrivateKeyData? ==> row.recipientPublicKeyDigest == Some(data.recipientPublicKeyDigest)
    ensures data.SubsequentSessionPrivateKeyData? ==>
              row.certificateDer == if existing.Some? then existing.value.certificateDer else None
    ensures !data.SubsequentSessionPrivateKeyData? ==>
              row.recipientPublicKeyDigest == if existing.Some? then existing.value.recipientPublicKeyDigest else None
  {
    var certificateDer := if data.SubsequentSessionPrivateKeyData? then None else Some(data.certificateDer);
    var digest := if data.SubsequentSessionPrivateKeyData? then Some(data.recipientPublicKeyDigest) else None;
    match existing
    case None => PrivateKeyRow(data.keyDer, certificateDer, digest, data.KeyType())
    case Some(stored) =>
      PrivateKeyRow(data.keyDer,
                    if certificateDer.Some? then certificateDer else stored.certificateDer,
                    if digest.Some? then digest else stored.recipientPublicKeyDigest,
                    data.KeyType())
  }

  /** The data a well-formed row reads back as, by its type tag. */
  function RowData(row: PrivateKeyRow): (data: PrivateKeyData)
    requires WellFormed(row)
    ensures data.keyDer == row.derSerialization && data.KeyType() == row.keyType
    ensures data.SubsequentSessionPrivateKeyData? ==> Some(data.recipientPublicKeyDigest) == row.recipientPublicKeyDigest
    ensures !data.SubsequentSessionPrivateKeyData? ==> Some(data.certificateDer) == row.certificateDer
  {
    if row.keyType == SessionSubsequent then
      SubsequentSessionPrivateKeyData(row.derSerialization, row.recipientPublicKeyDigest.value)
    else if row.keyType == Node then
      NodePrivateKeyData(row.derSerialization, row.certificateDer.value)
    else
      InitialSessionPrivateKeyData(row.derSerialization, row.certificateDer.value)
  }

  /** Reading a row back gives exactly the data last saved into it, whatever was stored before. */
  lemma SavedRowRoundTrip(existing: Option<PrivateKeyRow>, data: PrivateKeyData)
    ensures RowData(SavedRow(existing, data)) == data
  {
  }

  /** Saving what a fresh row reads back as recreates that row when its unused column is null. */
  lemma RowDataRoundTrip(row: PrivateKeyRow)
    requires WellFormed(row)
    requires row.keyType == SessionSubsequent ==> row.certificateDer.None?
    requires row.keyType != SessionSubsequent ==> row.recipientPublicKeyDigest.None?
    ensures SavedRow(None, RowData(row)) == row
  {
  }

  /** Why a session key lookup failed; all of these surface as relaynet-core's UnknownKeyError. */
  datatype UnknownKeyError =
    | MissingKey(keyId: string)
    | NotASessionKey(keyId: string)
    | BoundToAnotherRecipient(keyId: string, boundPeer: string, requestedPeer: string)
  {
    /** The diagnostic text of a binding mismatch names both peers. */
    function Message(): string
      requires BoundToAnotherRecipient?
    {
      "Session key " + keyId + " is bound to another recipient (" + boundPeer + ", not " + requestedPeer + ")"
    }
  }

  /** Every row of the table is well-formed. */
  ghost predicate TableWellFormed(keys: map<string, PrivateKeyRow>)
  {
    forall keyId :: keyId in keys ==> WellFormed(keys[keyId])
  }

  /** The certificate of every node row of a well-formed table, by key id. */
  function NodeCertificates(keys: map<string, PrivateKeyRow>): map<string, Bytes>
    requires TableWellFormed(keys)
  {
    map keyId | keyId in keys && keys[keyId].keyType == Node :: keys[keyId].certificateDer.value
  }

  /** Upserting a row adds or replaces its certificate if it is a node row, and drops its id otherwise. */
  lemma NodeCertificatesAfterUpsert(keys: map<string, PrivateKeyRow>, keyId: string, row: PrivateKeyRow)
    requires TableWellFormed(keys) && WellFormed(row)
    ensures TableWellFormed(keys[keyId := row])
    ensures NodeCertificates(keys[keyId := row]) ==
              if row.keyType == Node then NodeCertificates(keys)[keyId := row.certificateDer.value]
              else NodeCertificates(keys) - {keyId}
  {
    var expected := if row.keyType == Node then NodeCertificates(keys)[keyId := row.certificateDer.value]
                    else NodeCertificates(keys) - {keyId};
    assert NodeCertificates(keys[keyId := row]).Keys == expected.Keys;
  }

  /** The private key store over its table of rows, indexed by key id. */
  class DBPrivateKeyStore {
    var keys: map<string, PrivateKeyRow>

    ghost predicate Valid()
      reads this
    {
      TableWellFormed(keys)
    }

    constructor ()
      ensures Valid() && keys == map[]
    {
      keys := map[];
    }

    /** Upserts `privateKeyData` under `keyId`; every other id keeps its row. */
    method SaveKey(privateKeyData: PrivateKeyData, keyId: string)
      requires Valid()
      modifies this
      ensures Valid()
      ensures keys == old(keys)[keyId := SavedRow(if keyId in old(keys) then Some(old(keys)[keyId]) else None, privateKeyData)]
      ensures keys.Keys == old(keys).Keys + {keyId}
      ensures FetchKey(keyId) == Some(privateKeyData)
      ensures forall other :: other != keyId ==> FetchKey(other) == old(FetchKey(other))
      ensures FetchNodeCertificates() ==
                if privateKeyData.NodePrivateKeyData? then old(FetchNodeCertificates())[keyId := privateKeyData.certificateDer]
                else old(FetchNodeCertificates()) - {keyId}
    {
      var existing := if keyId in keys then Some(keys[keyId]) else None;
      var row := SavedRow(existing, privateKeyData);
      SavedRowRoundTrip(existing, privateKeyData);
      NodeCertificatesAfterUpsert(keys, keyId, row);
      keys := keys[keyId := row];
    }

    /** The data stored under `keyId`, shaped by the row's type tag, or None when there is no such row. */
    function FetchKey(keyId: string): (r: Option<PrivateKeyData>)
      reads this
      requires Valid()
      ensures r.None? <==> keyId !in keys
      ensures r.Some? ==> r.value.keyDer == keys[keyId].derSerialization && r.value.KeyType() == keys[keyId].keyType
      ensures r.Some? && r.value.SubsequentSessionPrivateKeyData? ==>
                keys[keyId].recipientPublicKeyDigest == Some(r.value.recipientPublicKeyDigest)
      ensures r.Some? && !r.value.SubsequentSessionPrivateKeyData? ==>
                keys[keyId].certificateDer == Some(r.value.certificateDer)
    {
      if keyId !in keys then None else Some(RowData(keys[keyId]))
    }

    /** The certificate of every node key, by key id; session keys of either kind are left out. */
    function FetchNodeCertificates(): (r: map<string, Bytes>)
      reads this
      requires Valid()
      ensures forall keyId :: keyId in r <==> keyId in keys && keys[keyId].keyType == Node
      ensures forall keyId :: keyId in r ==> keys[keyId].certificateDer == Some(r[keyId])
    {
      NodeCertificates(keys)
    }

    /**
     * A session key by id for a given peer: a subsequent session key is bound
     * to the peer whose digest it was saved with, an initial one to no peer.
     */
    function FetchSessionKey(keyId: string, peerId: string): (r: Result<Bytes, UnknownKeyError>)
      reads this
      requires Valid()
      ensures r == Failure(MissingKey(keyId)) <==> keyId !in keys
      ensures r.Failure? && r.error.NotASessionKey? <==> keyId in keys && keys[keyId].keyType == Node
      ensures r.Failure? && r.error.BoundToAnotherRecipient? <==>
                keyId in keys && keys[keyId].keyType == SessionSubsequent &&
                keys[keyId].recipientPublicKeyDigest != Some(peerId)
      ensures r.Failure? && r.error.BoundToAnotherRecipient? ==>
                r.error == BoundToAnotherRecipient(keyId, keys[keyId].recipientPublicKeyDigest.value, peerId)
      ensures r.Success? ==> keyId in keys && r.value == keys[keyId].derSerialization
      ensures r.Failure? ==> r.error.keyId == keyId
      ensures r.Success? <==>
                keyId in keys && keys[keyId].keyType != Node &&
                (keys[keyId].keyType == SessionSubsequent ==> keys[keyId].recipientPublicKeyDigest == Some(peerId))
    {
      match FetchKey(keyId)
      case None => Failure(MissingKey(keyId))
      case Some(data) =>
        match data
        case NodePrivateKeyData(_, _) => Failure(NotASessionKey(keyId))
        case InitialSessionPrivateKeyData(keyDer, _) => Success(keyDer)
        case SubsequentSessionPrivateKeyData(keyDer, digest) =>
          if digest == peerId then Success(keyDer)
          else Failure(BoundToAnotherRecipient(keyId, digest, peerId))
    }
  }

  /** A store with no rows has no node certificates. */
  lemma NoNodeCertificatesWhenEmpty(store: DBPrivateKeyStore)
    requires store.Valid() && store.keys == map[]
    ensures store.FetchNodeCertificates() == map[]
  {
  }

  /** A subsequent session key serves the peer it is bound to and refuses every other peer, naming both. */
  lemma SubsequentSessionKeyBinding(store: DBPrivateKeyStore, keyId: string, keyDer: Bytes, boundPeer: string, requestedPeer: string)
    requires store.Valid()
    requires store.FetchKey(keyId) == Some(SubsequentSessionPrivateKeyData(keyDer, boundPeer))
    ensures store.FetchSessionKey(keyId, boundPeer) == Success(keyDer)
    ensures requestedPeer != boundPeer ==>
              store.FetchSessionKey(keyId, requestedPeer) == Failure(BoundToAnotherRecipient(keyId, boundPeer, requestedPeer))
    ensures requestedPeer != boundPeer ==>
              store.FetchSessionKey(keyId, requestedPeer).error.Message() ==
                "Session key " + keyId + " is bound to another recipient (" + boundPeer + ", not " + requestedPeer + ")"
  {
  }

  /** An initial session key is bound to no peer: every peer gets it. */
  lemma InitialSessionKeyUnbound(store: DBPrivateKeyStore, keyId: string, keyDer: Bytes, certificateDer: Bytes, peerId: string)
    requires store.Valid()
    requires store.FetchKey(keyId) == Some(InitialSessionPrivateKeyData(keyDer, certificateDer))
    ensures store.FetchSessionKey(keyId, peerId) == Success(keyDer)
  {
  }
}
