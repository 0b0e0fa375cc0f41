/** The verdict a deeplink handler gives on one link. */
module HandlerResults {

  datatype DeeplinkHandlerResult =
    | FullyHandled      // the handler finished with the link; nothing more is needed
    | PartiallyHandled  // the handler acted, but other handlers should still see the link
    | NotHandled        // the handler did nothing with the link

  /** A result other than NotHandled takes a position on whether the link is still wanted. */
  predicate IsDefinitive(r: DeeplinkHandlerResult) {
    r != NotHandled
  }
}
