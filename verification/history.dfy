/** The session-scoped history of analyses (`add_to_history`, main.py:45-48,
    and the `/history` route, main.py:51-54). The session's `history` key
    is either absent or holds the list of entries, oldest first. */
module History {
  import opened Options

  /** One `{'sentence': ..., 'result': ...}` record. */
  datatype Entry = Entry(sentence: string, result: string)

  /** The session's `history` key: absent until the first successful analysis. */
  type Session = Option<seq<Entry>>

  /** `GET /history`: the stored entries, or the empty list when the key is absent. */
  function Stored(session: Session): seq<Entry> {
    if session.Some? then session.value else []
  }

  /** `add_to_history`: create the list when it is absent, then append one
      entry. The new entry comes last and every earlier entry keeps its
      place. */
  function AddToHistory(session: Session, sentence: string, result: string): (s': Session)
    ensures s'.Some?
    ensures |Stored(s')| == |Stored(session)| + 1
    ensures Stored(s')[..|Stored(session)|] == Stored(session)
    ensures Stored(s')[|Stored(session)|] == Entry(sentence, result)
  {
    var entries := if session.None? then [] else session.value;
    Some(entries + [Entry(sentence, result)])
  }
}
