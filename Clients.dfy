/**
 * The named recipient lists ("clients") of app.js: a name-to-list map that
 * `saveNewClient` and `deleteClient` update in place and `loadClient`
 * reads back into the recipient box.
 */
module Clients {
  import opened Wrappers
  import opened Text
  import opened Recipients

  /** Why `saveNewClient` refused to save. */
  datatype SaveOutcome = Saved(name: string, count: nat) | EmptyName | NoRecipients

  /** What every stored entry looks like after a save: a trimmed,
      non-empty name mapped to a non-empty list of trimmed, non-blank,
      newline-free lines. */
  ghost predicate WellFormed(clients: map<string, seq<string>>) {
    forall name :: name in clients ==>
      && name != "" && IsTrimmed(name)
      && |clients[name]| > 0
      && forall i :: 0 <= i < |clients[name]| ==>
           clients[name][i] != "" && IsTrimmed(clients[name][i]) && '\n' !in clients[name][i]
  }

  class ClientStore {
    var clients: map<string, seq<string>>

    ghost predicate Valid()
      reads this
    {
      WellFormed(clients)
    }

    constructor ()
      ensures Valid() && clients == map[]
    {
      clients := map[];
    }

    /** `saveNewClient`: trims the name, parses the box for saving, and
        either refuses (empty name first, then no non-blank line) leaving
        the store as it was, or stores the list under the name, replacing
        any earlier list and touching no other name. */
    method SaveNewClient(nameInput: string, recipientsText: string) returns (outcome: SaveOutcome)
      requires Valid()
      modifies this
      ensures Valid()
      ensures Trim(nameInput) == "" ==> outcome == EmptyName
      ensures Trim(nameInput) != "" && ParseForSave(recipientsText) == [] ==> outcome == NoRecipients
      ensures Trim(nameInput) != "" && ParseForSave(recipientsText) != [] ==>
        outcome == Saved(Trim(nameInput), |ParseForSave(recipientsText)|)
      ensures outcome.Saved? ==> clients == old(clients)[Trim(nameInput) := ParseForSave(recipientsText)]
      ensures !outcome.Saved? ==> clients == old(clients)
    {
      var name := Trim(nameInput);
      if name == "" {
        return EmptyName;
      }
      var emails := ParseForSave(recipientsText);
      if |emails| == 0 {
        return NoRecipients;
      }
      clients := clients[name := emails];
      outcome := Saved(name, |emails|);
    }

    /** `loadClient`: the new content of the recipient box, the stored list
        joined with newlines; `None` for a name with no list, where
        app.js throws a `TypeError` before touching the box. */
    method LoadClient(name: string) returns (box: Option<string>)
      ensures name in clients ==> box == Some(Join(clients[name], "\n"))
      ensures name !in clients ==> box == None
    {
      if name in clients {
        box := Some(Join(clients[name], "\n"));
      } else {
        box := None;
      }
    }

    /** `deleteClient`: when the user confirms, removes the name and
        nothing else (a missing name changes nothing); otherwise leaves the
        store alone. */
    method DeleteClient(name: string, confirmed: bool)
      requires Valid()
      modifies this
      ensures Valid()
      ensures confirmed ==> clients == old(clients) - {name}
      ensures name !in old(clients) ==> clients == old(clients)
      ensures !confirmed ==> clients == old(clients)
    {
      if !confirmed {
        return;
      }
      clients := clients - {name};
    }
  }

  /** Loading a list into the box and saving it back under the same name
      stores exactly what was there: the name is already trimmed and the
      joined lines parse back to the same list. */
  lemma LoadThenSaveIsIdentity(clients: map<string, seq<string>>, name: string)
    requires WellFormed(clients) && name in clients
    ensures Trim(name) == name
    ensures ParseForSave(Join(clients[name], "\n")) == clients[name]
    ensures clients[Trim(name) := ParseForSave(Join(clients[name], "\n"))] == clients
  {
    ParseForSaveOfJoin(clients[name]);
  }

  /** A store seen through its methods: loading a list and saving it back
      leaves every list as it was. */
  method ReloadAndSave(store: ClientStore, name: string)
    requires store.Valid() && name in store.clients
    modifies store
    ensures store.Valid() && store.clients == old(store.clients)
  {
    var box := store.LoadClient(name);
    LoadThenSaveIsIdentity(store.clients, name);
    var outcome := store.SaveNewClient(name, box.value);
  }
}
