/** The conversation-history store of conversations.py: one row per phone
    number holding that number's message list. The table becomes a map
    from number to history; a row that exists is a key that is present. */
module Conversations {

  import opened Wrappers

  /** One message of a history, `{"role": ..., "content": ...}`. */
  datatype Entry = Entry(role: string, content: string)

  type History = seq<Entry>

  type Store = map<string, History>

  const SystemRole: string := "system"

  const UserRole: string := "user"

  /** The system prompt a new history starts with. */
  const DefaultSystemMessage: string :=
    "you're a helpful assistant. Your messages are text messages. Be consise"

  /** The database error of an `INSERT` for a number that already has a
      row (the number is the table's primary key). */
  datatype StoreError = DuplicateNumber(phone: string)

  /** Every stored history is non-empty and starts with a system entry. */
  predicate Valid(store: Store) {
    forall p :: p in store ==> store[p] != [] && store[p][0].role == SystemRole
  }

  /** `get_messages`: the number's history, `None` when it has no row. */
  function GetMessages(store: Store, phone: string): (r: Option<History>)
    ensures r.Some? <==> phone in store
    ensures r.Some? ==> r.value == store[phone]
  {
    if phone in store then Some(store[phone]) else None
  }

  /** `delete_messages`: drop the number's row, if any. */
  function DeleteMessages(store: Store, phone: string): (r: Store)
    ensures GetMessages(r, phone) == None
    ensures forall q :: q != phone ==> GetMessages(r, q) == GetMessages(store, q)
    ensures phone !in store ==> r == store
  {
    store - {phone}
  }

  /** `set_default_messages`: a history that is not empty is deleted first,
      then a fresh row holding just the system entry is inserted. A row
      holding an empty list reads as false, is not deleted, and the insert
      then fails on the primary key. */
  function SetDefaultMessages(store: Store, phone: string, system: string): (r: Result<Store, StoreError>)
    ensures r.Failure? <==> phone in store && store[phone] == []
    ensures r.Success? ==> GetMessages(r.value, phone) == Some([Entry(SystemRole, system)])
    ensures r.Success? ==> forall q :: q != phone ==> GetMessages(r.value, q) == GetMessages(store, q)
  {
    var existing := GetMessages(store, phone);
    var cleared := if existing.Some? && existing.value != [] then DeleteMessages(store, phone) else store;
    if phone in cleared then Failure(DuplicateNumber(phone))
    else Success(cleared[phone := [Entry(SystemRole, system)]])
  }

  /** `add_message`: append `{role, message}` to the number's history,
      starting it with the default system entry when there is none, and
      return the history as stored. */
  function AddMessage(store: Store, phone: string, message: string, role: string)
    : (r: Result<(Store, History), StoreError>)
    ensures r.Failure? <==> phone in store && store[phone] == []
    ensures r.Success? ==> GetMessages(r.value.0, phone) == Some(r.value.1)
    ensures r.Success? && phone !in store ==>
              r.value.1 == [Entry(SystemRole, DefaultSystemMessage), Entry(role, message)]
    ensures r.Success? && phone in store ==> r.value.1 == store[phone] + [Entry(role, message)]
    ensures r.Success? ==> forall q :: q != phone ==> GetMessages(r.value.0, q) == GetMessages(store, q)
  {
    var existing := GetMessages(store, phone);
    if existing.None? || existing.value == [] then
      match SetDefaultMessages(store, phone, DefaultSystemMessage)
      case Failure(e) => Failure(e)
      case Success(created) =>
        var history := created[phone] + [Entry(role, message)];
        Success((created[phone := history], history))
    else
      var history := existing.value + [Entry(role, message)];
      Success((store[phone := history], history))
  }

  /** On a valid store no operation fails, and each leaves the store valid:
      the first entry of a history is never replaced by an append. */
  lemma {:induction false} MutatorsPreserveValid(store: Store, phone: string, text: string, role: string)
    requires Valid(store)
    ensures Valid(DeleteMessages(store, phone))
    ensures SetDefaultMessages(store, phone, text).Success?
    ensures Valid(SetDefaultMessages(store, phone, text).value)
    ensures AddMessage(store, phone, text, role).Success?
    ensures Valid(AddMessage(store, phone, text, role).value.0)
  {
    var deleted: Store := DeleteMessages(store, phone);
    forall q: string | q in deleted
      ensures deleted[q] != [] && deleted[q][0].role == SystemRole
    {
      assert GetMessages(deleted, q) == GetMessages(store, q);
    }
    var reset: Store := SetDefaultMessages(store, phone, text).value;
    forall q: string | q in reset
      ensures reset[q] != [] && reset[q][0].role == SystemRole
    {
      if q != phone {
        assert GetMessages(reset, q) == GetMessages(store, q);
      } else {
        assert GetMessages(reset, q) == Some([Entry(SystemRole, text)]);
      }
    }
    var added: Store := AddMessage(store, phone, text, role).value.0;
    forall q: string | q in added
      ensures added[q] != [] && added[q][0].role == SystemRole
    {
      if q != phone {
        assert GetMessages(added, q) == GetMessages(store, q);
      } else {
        assert GetMessages(added, q).Some?;
      }
    }
  }

  /** After a delete, adding a message starts a fresh two-entry history:
      the default system entry, then the new message. */
  lemma {:induction false} ClearThenAdd(store: Store, phone: string, message: string, role: string)
    ensures var r := AddMessage(DeleteMessages(store, phone), phone, message, role);
            && r.Success?
            && r.value.1 == [Entry(SystemRole, DefaultSystemMessage), Entry(role, message)]
  {
    assert phone !in DeleteMessages(store, phone);
  }
}
