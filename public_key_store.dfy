/**
 * The public key store: peers' identity keys and their latest session keys,
 * in two tables each keyed by peer id.
 */
module PublicKeyStore {
  import opened Common

  /** A peer's session public key as relaynet-core hands it over and gets it back. */
  datatype SessionPublicKeyData = SessionPublicKeyData(
    publicKeyCreationTime: Timestamp,
    publicKeyDer: Bytes,
    publicKeyId: Bytes)

  /** A row of the session key table, less its primary key (the peer id). */
  datatype SessionPublicKeyRow = SessionPublicKeyRow(
    id: Bytes,
    derSerialization: Bytes,
    creationDate: Timestamp)

  /** The row saving `keyData` writes: every column is taken from the data. */
  function SessionRow(keyData: SessionPublicKeyData): (row: SessionPublicKeyRow)
    ensures SessionData(row) == keyData
  {
    SessionPublicKeyRow(keyData.publicKeyId, keyData.publicKeyDer, keyData.publicKeyCreationTime)
  }

  /** The data a stored row reads back as. */
  function SessionData(row: SessionPublicKeyRow): (keyData: SessionPublicKeyData)
    ensures keyData.publicKeyId == row.id && keyData.publicKeyDer == row.derSerialization
    ensures keyData.publicKeyCreationTime == row.creationDate
  {
    SessionPublicKeyData(row.creationDate, row.derSerialization, row.id)
  }

  /** Rows and data are in one-to-one correspondence. */
  lemma SessionRowRoundTrip(row: SessionPublicKeyRow)
    ensures SessionRow(SessionData(row)) == row
  {
  }

  /** The public key store over its two peer-keyed tables. */
  class DBPublicKeyStore {
    var identityKeys: map<string, Bytes>
    var sessionKeys: map<string, SessionPublicKeyRow>

    constructor ()
      ensures identityKeys == map[] && sessionKeys == map[]
    {
      identityKeys := map[];
      sessionKeys := map[];
    }

    /** Creates or overwrites the identity key of `peerId`; one row per peer, the session table untouched. */
    method SaveIdentityKeySerialized(keySerialized: Bytes, peerId: string)
      modifies this
      ensures identityKeys == old(identityKeys)[peerId := keySerialized]
      ensures identityKeys.Keys == old(identityKeys).Keys + {peerId}
      ensures sessionKeys == old(sessionKeys)
      ensures RetrieveIdentityKeySerialized(peerId) == Some(keySerialized)
      ensures forall other :: other != peerId ==>
                RetrieveIdentityKeySerialized(other) == old(RetrieveIdentityKeySerialized(other))
    {
      identityKeys := identityKeys[peerId := keySerialized];
    }

    /** The identity key last saved for `peerId`, or None if none was ever saved. */
    function RetrieveIdentityKeySerialized(peerId: string): (r: Option<Bytes>)
      reads this
      ensures r.None? <==> peerId !in identityKeys
      ensures r.Some? ==> r.value == identityKeys[peerId]
    {
      if peerId in identityKeys then Some(identityKeys[peerId]) else None
    }

    /**
     * Replaces the session key of `peerId` unconditionally, even with one
     * created before the stored one; the identity table is untouched.
     */
    method SaveSessionKeyData(keyData: SessionPublicKeyData, peerId: string)
      modifies this
      ensures sessionKeys == old(sessionKeys)[peerId := SessionRow(keyData)]
      ensures sessionKeys.Keys == old(sessionKeys).Keys + {peerId}
      ensures identityKeys == old(identityKeys)
      ensures RetrieveSessionKeyData(peerId) == Some(keyData)
      ensures forall other :: other != peerId ==> RetrieveSessionKeyData(other) == old(RetrieveSessionKeyData(other))
    {
      sessionKeys := sessionKeys[peerId := SessionRow(keyData)];
    }

    /** The session key last saved for `peerId`, or None if none was ever saved. */
    function RetrieveSessionKeyData(peerId: string): (r: Option<SessionPublicKeyData>)
      reads this
      ensures r.None? <==> peerId !in sessionKeys
      ensures r.Some? ==> SessionRow(r.value) == sessionKeys[peerId]
    {
      if peerId in sessionKeys then Some(SessionData(sessionKeys[peerId])) else None
    }
  }

  /** An older session key saved after a newer one wins: the store keeps no ordering by creation time. */
  method OlderSessionKeyOverwritesNewer(peerId: string, newer: SessionPublicKeyData, older: SessionPublicKeyData)
    returns (store: DBPublicKeyStore)
    requires older.publicKeyCreationTime < newer.publicKeyCreationTime
    ensures store.RetrieveSessionKeyData(peerId) == Some(older)
  {
    store := new DBPublicKeyStore();
    store.SaveSessionKeyData(newer, peerId);
    store.SaveSessionKeyData(older, peerId);
  }
}
