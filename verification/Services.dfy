/** The judge and the evidence reader of one boundary. Every question they are asked is on record, with its answer. */
module Services {
  import opened Documents
  import opened Lifecycle

  /** How the judge answers: with a ruling, with a failure of its own, with an error, or with one that ends the
      stage. */
  datatype Answer = Ruled(verdict: Verdict,
                          reasoning: string) | Declined(message: string) | Erred(message: string) | Fatal

  /** One question to the judge, and its answer. */
  datatype Inquiry = Inquiry(id: string, answer: Answer)

  class JudgeService {
    ghost var asked: seq<Inquiry>

    constructor ()
      ensures asked == []
    {
      asked := [];
    }

    method Ask(id: string, faults: bool) returns (answer: Answer)
      modifies this
      ensures asked == old(asked) + [Inquiry(id, answer)]
      ensures answer.Fatal? ==> faults
    {
      answer := *;
      if answer.Fatal? && !faults {
        answer := Erred("");
      }
      asked := asked + [Inquiry(id, answer)];
    }
  }

  /** How storing evidence may fail: before its directory exists, when the temporary file cannot be opened and is
      dropped, while it is written, or after the destination exists. */
  datatype StorageFault = NoFault | Unplaced | Unopened | Torn(written: Bytes) | Late {
    /** The destination is looked at. */
    predicate Reaches() { NoFault? || Late? }
  }

  /** What one extraction meets: what its locator is read as, and how its storage fails, if it comes to that. */
  datatype Encounter = Encounter(id: string, reading: Result<Bytes, string>, fault: StorageFault, message: string)

  class EvidenceReader {
    ghost var consulted: seq<Encounter>

    constructor ()
      ensures consulted == []
    {
      consulted := [];
    }

    /** Read what a locator denotes. Without faults that is its immutable content, and storing it does not fail. */
    method Read(w: World, id: string, locator: string, faults: bool) returns (met: Encounter)
      modifies this
      ensures consulted == old(consulted) + [met] && met.id == id
      ensures !faults ==> met.reading == Ok(w.content(locator)) && met.fault.NoFault?
    {
      met := *;
      met := met.(id := id);
      if !faults {
        met := met.(reading := Ok(w.content(locator)), fault := NoFault);
      }
      consulted := consulted + [met];
    }
  }
}
