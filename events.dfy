/** The record handed from the producer to the consumers. */
module Events {
  /** One browsing event: the device, URL and timestamp lines it was built from, kept verbatim. */
  datatype BrowsingEvent = BrowsingEvent(device: string, url: string, timestamp: string)

  /** A default-constructed event: three empty strings. */
  const EMPTY_EVENT := BrowsingEvent("", "", "")
}
