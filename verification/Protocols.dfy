/** Which routes the HTTP routers take. */
module Protocols {
  predicate IsHttp(protocol: string) {
    protocol in ["http", "https", "grpc", "grpcs", "ws", "wss"]
  }

  predicate AnyHttp(protocols: seq<string>) {
    exists i :: 0 <= i < |protocols| && IsHttp(protocols[i])
  }

  /** One of the six HTTP protocols is listed. */
  predicate ServesHttp(protocols: seq<string>) {
    || "http" in protocols || "https" in protocols || "grpc" in protocols || "grpcs" in protocols
    || "ws" in protocols || "wss" in protocols
  }

  lemma AnyHttpIs(protocols: seq<string>)
    ensures AnyHttp(protocols) <==> ServesHttp(protocols)
  {
    assert AnyHttp(protocols) <==> exists p :: p in protocols && IsHttp(p) by {
      if p :| p in protocols && IsHttp(p) {
        var i :| 0 <= i < |protocols| && protocols[i] == p;
      }
    }
  }
}
