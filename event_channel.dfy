/** The event channel between the two services: a topic name and the
    messages published on it. */
module EventChannel {
  import opened JsValues

  /** The topic the issuance service publishes to and the verification
      service subscribes to. */
  const Topic: string := "credential.issued"

  /** One published message: its topic and its value. */
  datatype Message = Message(topic: string, value: Text)
}
