/** The work items the coordinator hands out and the completions workers
    send back. The variants follow what `Profiler` constructs and reads:
    its linear-combination item carries the cracked numbers and a counter
    range, and it uses a hash-finding item that `Worker` does not declare. */
module Messages {

  /** A worker's identity (an Akka `ActorRef`), reduced to a number. */
  type ActorRef = int

  datatype WorkItem =
    /** `WorkMessagePasswordCracking`: candidates to hash. */
    | PasswordCracking(sixDigitNumbers: seq<string>)
      /** `WorkMessageLinearCombination`: the cracked numbers and the counter
          range `[start, end)` of sign patterns to try. */
    | LinearCombination(passwords: seq<int>, start: int, end: int)
      /** `WorkMessageGeneComparision`: two gene sequences and their ids. */
    | GeneComparison(first: string, second: string, firstId: int, secondId: int)
      /** `WorkMessageFindHash`: mine a hash for `id` whose prefix is made of
          `prefix`, seeded by the best gene partner. */
    | FindHash(id: int, prefix: string, partnerId: int)

  /** `CompletionMessage.status`. */
  datatype Status = Succeeded | Failed

  /** What a completion carries, one variant per `CompletionMessage`
      subclass. */
  datatype Payload =
    | Hashes(hashes: seq<string>)
    | LinearCombinationResult(found: bool, prefixes: seq<int>)
    | GeneOverlap(length: int)
    | FoundHash(hash: string)

  datatype Completion = Completion(status: Status, payload: Payload)
}
