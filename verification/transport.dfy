/** The message every transport is handed (core/transport/transport.go). */
module Transport {
  datatype Message = Message(from: string, to: seq<string>, replyTo: string, subject: string, bodyText: string)
}
