/**
 * The composite Azure Key Vault provider: one secret client per vault URI,
 * asked in the configured order until one of them has the secret.
 */
module CompositeKeyVault {
  import opened Wrappers

  /** A secret client for one vault. */
  datatype SecretClient = SecretClient(vaultUri: string)

  /** What one client's secret lookup gives for one secret name. */
  datatype Response =
    | Secret(value: Option<string>)  // a secret object; its Value may be null
    | NullSecret                     // the call returned a null secret object
    | RequestFailed(status: int)     // a request failure with this HTTP status
    | OtherException                 // any other failure

  /** The vaults' answers: what each client gives for each secret name. */
  type Vaults = (SecretClient, string) -> Response

  /** The lookup ends with a value (possibly null) or with an exception that escapes it. */
  datatype Outcome = Value(value: Option<string>) | Raised

  /** What `TryGet` does: it throws, or returns a found flag and the value. */
  datatype TryResult = TryRaised | Returned(found: bool, value: Option<string>)

  /** A response after which the search moves on: a null secret or a 404. */
  predicate Skips(r: Response) {
    r.NullSecret? || r == RequestFailed(404)
  }

  /** How a response that does not skip ends the search. */
  function Verdict(r: Response): Outcome {
    match r
    case Secret(v) => Value(v)
    case _ => Raised
  }

  /** The lookup over the clients in order; null when every client skips. */
  function Resolve(clients: seq<SecretClient>, name: string, vaults: Vaults): Outcome {
    if clients == [] then Value(None)
    else
      match vaults(clients[0], name)
      case Secret(v) => Value(v)
      case NullSecret => Resolve(clients[1..], name, vaults)
      case RequestFailed(status) => if status == 404 then Resolve(clients[1..], name, vaults) else Raised
      case OtherException => Raised
  }

  /** The index of the first client that does not skip, or the number of clients. */
  function FirstStop(clients: seq<SecretClient>, name: string, vaults: Vaults): (i: nat)
    ensures i <= |clients|
    ensures forall j :: 0 <= j < i ==> Skips(vaults(clients[j], name))
    ensures i < |clients| ==> !Skips(vaults(clients[i], name))
  {
    if clients == [] then 0
    else if Skips(vaults(clients[0], name)) then 1 + FirstStop(clients[1..], name, vaults)
    else 0
  }

  /** How many clients the lookup asks: up to and including the first that does not skip. */
  function QueryCount(clients: seq<SecretClient>, name: string, vaults: Vaults): (n: nat)
    ensures n <= |clients|
    ensures n == 0 <==> clients == []
  {
    var i := FirstStop(clients, name, vaults);
    if i < |clients| then i + 1 else |clients|
  }

  // ---------------------------------------------------------------------------
  // Properties of the lookup
  // ---------------------------------------------------------------------------

  /** The lookup is decided by the first client that does not skip, and is null when there is none. */
  lemma {:induction false} ResolveAtFirstStop(clients: seq<SecretClient>, name: string, vaults: Vaults)
    ensures var i := FirstStop(clients, name, vaults);
            Resolve(clients, name, vaults) == if i == |clients| then Value(None) else Verdict(vaults(clients[i], name))
  {
    if clients != [] && Skips(vaults(clients[0], name)) {
      ResolveAtFirstStop(clients[1..], name, vaults);
    }
  }

  /** The first client with a secret object supplies its value, and only the clients up to it are asked. */
  lemma FirstSecretWins(clients: seq<SecretClient>, name: string, vaults: Vaults, i: nat, v: Option<string>)
    requires i < |clients|
    requires forall j :: 0 <= j < i ==> Skips(vaults(clients[j], name))
    requires vaults(clients[i], name) == Secret(v)
    ensures Resolve(clients, name, vaults) == Value(v)
    ensures QueryCount(clients, name, vaults) == i + 1
  {
    FirstStopUnique(clients, name, vaults, i);
    ResolveAtFirstStop(clients, name, vaults);
  }

  /** A failure other than a 404 escapes, and no client after the failing one is asked. */
  lemma OtherFailuresEscape(clients: seq<SecretClient>, name: string, vaults: Vaults, i: nat)
    requires i < |clients|
    requires forall j :: 0 <= j < i ==> Skips(vaults(clients[j], name))
    requires vaults(clients[i], name).OtherException? ||
             (vaults(clients[i], name).RequestFailed? && vaults(clients[i], name).status != 404)
    ensures Resolve(clients, name, vaults) == Raised
    ensures QueryCount(clients, name, vaults) == i + 1
  {
    FirstStopUnique(clients, name, vaults, i);
    ResolveAtFirstStop(clients, name, vaults);
  }

  /** When every client skips, the result is null rather than an exception, and every client was asked. */
  lemma AllSkipGivesNull(clients: seq<SecretClient>, name: string, vaults: Vaults)
    requires forall j :: 0 <= j < |clients| ==> Skips(vaults(clients[j], name))
    ensures Resolve(clients, name, vaults) == Value(None)
    ensures QueryCount(clients, name, vaults) == |clients|
  {
    FirstStopUnique(clients, name, vaults, |clients|);
    ResolveAtFirstStop(clients, name, vaults);
  }

  /** The first-stop index is the only one before which every client skips and at which one does not. */
  lemma {:induction false} FirstStopUnique(clients: seq<SecretClient>, name: string, vaults: Vaults, i: nat)
    requires i <= |clients|
    requires forall j :: 0 <= j < i ==> Skips(vaults(clients[j], name))
    requires i < |clients| ==> !Skips(vaults(clients[i], name))
    ensures FirstStop(clients, name, vaults) == i
  {
    if i > 0 {
      assert Skips(vaults(clients[0], name));
      forall j | 0 <= j < i - 1 ensures Skips(vaults(clients[1..][j], name)) {
        assert clients[1..][j] == clients[j + 1];
      }
      FirstStopUnique(clients[1..], name, vaults, i - 1);
    } else if clients != [] {
      assert !Skips(vaults(clients[0], name));
    }
  }

  /**
   * Clients after the deciding one are never consulted: vaults that answer
   * alike for the clients that are asked give the same outcome.
   */
  lemma {:induction false} UnaskedClientsDoNotMatter(clients: seq<SecretClient>, name: string, vaults: Vaults, other: Vaults)
    requires forall j :: 0 <= j < QueryCount(clients, name, vaults) ==> vaults(clients[j], name) == other(clients[j], name)
    ensures Resolve(clients, name, vaults) == Resolve(clients, name, other)
    ensures QueryCount(clients, name, vaults) == QueryCount(clients, name, other)
  {
    if clients != [] {
      assert vaults(clients[0], name) == other(clients[0], name);
      if Skips(vaults(clients[0], name)) {
        forall j | 0 <= j < QueryCount(clients[1..], name, vaults)
          ensures vaults(clients[1..][j], name) == other(clients[1..][j], name)
        {
          assert clients[1..][j] == clients[j + 1];
        }
        UnaskedClientsDoNotMatter(clients[1..], name, vaults, other);
      }
    }
  }

  /** Adding vaults after a client that decides the lookup changes nothing, and none of them is asked. */
  lemma {:induction false} AppendedClientsIgnored(clients: seq<SecretClient>, more: seq<SecretClient>, name: string, vaults: Vaults)
    requires FirstStop(clients, name, vaults) < |clients|
    ensures Resolve(clients + more, name, vaults) == Resolve(clients, name, vaults)
    ensures FirstStop(clients + more, name, vaults) == FirstStop(clients, name, vaults)
    ensures QueryCount(clients + more, name, vaults) == QueryCount(clients, name, vaults)
  {
    assert (clients + more)[0] == clients[0];
    if Skips(vaults(clients[0], name)) {
      assert (clients + more)[1..] == clients[1..] + more;
      AppendedClientsIgnored(clients[1..], more, name, vaults);
    }
  }

  /** One step of the lookup, at client `i`. */
  lemma ResolveStep(clients: seq<SecretClient>, i: nat, name: string, vaults: Vaults)
    requires i < |clients|
    ensures Resolve(clients[i..], name, vaults) ==
            if Skips(vaults(clients[i], name)) then Resolve(clients[i + 1..], name, vaults)
            else Verdict(vaults(clients[i], name))
    ensures QueryCount(clients[i..], name, vaults) ==
            if Skips(vaults(clients[i], name)) then 1 + QueryCount(clients[i + 1..], name, vaults) else 1
  {
    assert clients[i..][0] == clients[i] && clients[i..][1..] == clients[i + 1..];
  }

  // ---------------------------------------------------------------------------
  // The provider
  // ---------------------------------------------------------------------------

  class CompositeKeyVaultProvider {
    /** One client per vault URI, in the order the URIs were given. */
    const SecretClients: seq<SecretClient>

    constructor (keyVaultUris: seq<string>)
      ensures |SecretClients| == |keyVaultUris|
      ensures forall i :: 0 <= i < |keyVaultUris| ==> SecretClients[i].vaultUri == keyVaultUris[i]
    {
      SecretClients := seq(|keyVaultUris|, i requires 0 <= i < |keyVaultUris| => SecretClient(keyVaultUris[i]));
    }

    /** The provider holds no loaded state and no cache: `Load` does nothing. */
    method Load() {
    }

    /**
     * Asks the clients in order. A secret object ends the search with its
     * value; a null object or a 404 moves to the next client; any other
     * failure escapes. `queried` lists the clients asked, in order.
     */
    method GetSecret(secretName: string, vaults: Vaults) returns (outcome: Outcome, ghost queried: seq<SecretClient>)
      ensures outcome == Resolve(SecretClients, secretName, vaults)
      ensures queried == SecretClients[..QueryCount(SecretClients, secretName, vaults)]
    {
      queried := [];
      var i := 0;
      while i < |SecretClients|
        invariant 0 <= i <= |SecretClients|
        invariant forall j :: 0 <= j < i ==> Skips(vaults(SecretClients[j], secretName))
        invariant queried == SecretClients[..i]
        invariant Resolve(SecretClients, secretName, vaults) == Resolve(SecretClients[i..], secretName, vaults)
        invariant QueryCount(SecretClients, secretName, vaults) == i + QueryCount(SecretClients[i..], secretName, vaults)
      {
        var client := SecretClients[i];
        ResolveStep(SecretClients, i, secretName, vaults);
        queried := queried + [client];
        assert queried == SecretClients[..i + 1];
        match vaults(client, secretName) {
          case Secret(v) =>
            outcome := Value(v);
            return;
          case NullSecret =>
          case RequestFailed(status) =>
            if status != 404 {
              outcome := Raised;
              return;
            }
          case OtherException =>
            outcome := Raised;
            return;
        }
        i := i + 1;
      }
      outcome := Value(None);
    }

    /** Looks the key up; the found flag is true exactly when the value is not null. */
    method TryGet(key: string, vaults: Vaults) returns (result: TryResult)
      ensures result == TryRaised <==> Resolve(SecretClients, key, vaults) == Raised
      ensures result.Returned? ==> result.value == Resolve(SecretClients, key, vaults).value
      ensures result.Returned? ==> (result.found <==> result.value != None)
    {
      var outcome, _ := GetSecret(key, vaults);
      match outcome
      case Raised =>
        result := TryRaised;
      case Value(value) =>
        result := Returned(value != None, value);
    }
  }

  /**
   * A secret object whose value is null ends the search with a null value;
   * by `TryGet`'s last ensures, that lookup is then reported as not found.
   */
  lemma NullValueStopsSearch(clients: seq<SecretClient>, name: string, vaults: Vaults, i: nat)
    requires i < |clients|
    requires forall j :: 0 <= j < i ==> Skips(vaults(clients[j], name))
    requires vaults(clients[i], name) == Secret(None)
    ensures Resolve(clients, name, vaults) == Value(None)
    ensures QueryCount(clients, name, vaults) == i + 1 <= |clients|
  {
    FirstSecretWins(clients, name, vaults, i, None);
  }
}
