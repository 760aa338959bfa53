/** The records the dashboard works with (src/types.ts). */
module Types {

  /** The five processing stages a study passes through. */
  datatype Stage = SendComplete | ReceivedCentral | SentToAi | AiProcessing | ResultsReceived

  /** One row of the processing timeline shown for a study (`caption` is the source's `label`,
      a reserved word in Dafny). */
  datatype TimelineEvent = TimelineEvent(status: Stage, caption: string, timestamp: string, completed: bool)

  /** Aggregate figures shown beside the timeline; JavaScript numbers, kept as reals. */
  datatype Statistics = Statistics(averageWaitTime: real, estimatedQueueTime: real, totalProcessed: real, successRate: real)

  /** A study's latest status as the lookup table stores it: the status is an unchecked string. */
  datatype StudyRecord = StudyRecord(status: string, timestamp: string)
}
