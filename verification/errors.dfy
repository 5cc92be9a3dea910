/** Error values of the publish path. */
module Errors {

  /**
   * What the overlay's publish can report. Only the variants the chat node
   * cares about are named; the rest of the provider's reasons are folded into
   * `OtherPublishFailure`.
   */
  datatype PublishError = InsufficientPeers | Duplicate | OtherPublishFailure

  /** What the overlay's subscribe can report; its content is never inspected. */
  datatype SubscriptionError = SubscriptionError(reason: string)

  /** Why `send_message` gave up. */
  datatype SendingError =
    | NoSubscribedTopic
    | CantEncodeMessage
    | Other(cause: PublishError)
}
