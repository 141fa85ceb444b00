/**
  * The process-wide session registry: a map from session id to that session's
  * chat history, with a lookup that creates an empty history on first use.
  */
module Sessions {

  /** One chat message, as the history records it. */
  datatype Message = HumanMessage(text: string) | AIMessage(text: string)

  /** A session's chat history, an object shared by everyone who looks the session up. */
  class History {
    var messages: seq<Message>

    /** A fresh history holds no message. */
    constructor ()
      ensures messages == []
    {
      messages := [];
    }
  }

  /** The registry `store`: each session id mapped to its own history. */
  class SessionStore {
    var store: map<string, History>

    /** No two sessions share a history object. */
    predicate Valid()
      reads this
    {
      forall a, b :: a in store && b in store && a != b ==> store[a] != store[b]
    }

    /** The registry starts empty. */
    constructor ()
      ensures Valid() && store == map[]
    {
      store := map[];
    }

    /**
      * `get_session_history`: the history registered for `sessionId`; an unknown id
      * first gets a fresh empty history. Entries of other sessions are neither added,
      * removed nor changed, and the id is registered afterwards.
      */
    method GetSessionHistory(sessionId: string) returns (h: History)
      requires Valid()
      modifies this
      ensures Valid()
      ensures sessionId in store && store[sessionId] == h
      ensures sessionId in old(store) ==> h == old(store)[sessionId] && store == old(store)
      ensures sessionId !in old(store) ==> fresh(h) && h.messages == [] && store == old(store)[sessionId := h]
      ensures store.Keys == old(store).Keys + {sessionId}
      ensures forall id :: id in old(store) ==> id in store && store[id] == old(store)[id]
    {
      if sessionId !in store {
        var created := new History();
        store := store[sessionId := created];
      }
      h := store[sessionId];
    }

    /**
      * Asking twice for the same session gives the same history, and the second
      * call leaves the registry as the first left it.
      */
    method GetSessionHistoryTwice(sessionId: string) returns (first: History, second: History)
      requires Valid()
      modifies this
      ensures Valid()
      ensures first == second && sessionId in store && store[sessionId] == first
      ensures sessionId in old(store) ==> first == old(store)[sessionId] && store == old(store)
      ensures sessionId !in old(store) ==> fresh(first) && first.messages == [] && store == old(store)[sessionId := first]
      ensures store.Keys == old(store).Keys + {sessionId}
      ensures forall id :: id in old(store) ==> id in store && store[id] == old(store)[id]
    {
      first := GetSessionHistory(sessionId);
      ghost var afterFirst := store;
      second := GetSessionHistory(sessionId);
      assert store == afterFirst;
    }
  }
}
