/** The session log that the Logger module writes: one record per line,
    holding a two-letter tag, an integer value and the time elapsed since
    the session started. Elapsed time is kept in integer milliseconds. */
module SessionLog {

  /** The tags the scheduler writes:
      FD face detected, CS call by name started, PS special phrase started,
      CE call ended (acknowledged), SE session ended. */
  datatype Tag = FD | CS | PS | CE | SE

  /** One record `tag \t value \t elapsed`. */
  datatype Entry = Entry(tag: Tag, value: int, elapsed: int)

  /** Number of records in `log` that carry tag `t`. */
  function Count(log: seq<Entry>, t: Tag): nat {
    if |log| == 0 then 0
    else Count(log[..|log| - 1], t) + (if log[|log| - 1].tag == t then 1 else 0)
  }

  /** Appending one record adds one to the count of its own tag only. */
  lemma CountSnoc(log: seq<Entry>, e: Entry, t: Tag)
    ensures Count(log + [e], t) == Count(log, t) + (if e.tag == t then 1 else 0)
  {
    assert (log + [e])[..|log|] == log;
  }

  /** The elapsed times of the records never go down. */
  ghost predicate Chronological(log: seq<Entry>) {
    forall i, j :: 0 <= i < j < |log| ==> log[i].elapsed <= log[j].elapsed
  }
}
