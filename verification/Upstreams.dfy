/** Upstream proxies, as picked from the pool, and the dialling done through them. */
module Upstreams {
  import opened Text
  import opened HostPort
  import opened ProxyTable
  import opened Rotation

  datatype Upstream = Upstream(protocol: string, country: string, ip: string, port: int) {
    function Address(): string {
      Addr(ip, port)
    }
  }

  /** A destination was dialled through an upstream proxy. */
  datatype Dialled = Dialled(via: Upstream, dest: string)

  function FromStoreProxy(p: Row): Upstream {
    Upstream(p.key.protocol, p.country, p.key.ip, p.key.port)
  }

  /** The upstream is the proxy of this row: its own protocol, country, address and port. */
  ghost predicate Is(u: Upstream, p: Row) {
    u.protocol == p.key.protocol && u.country == p.country && u.ip == p.key.ip && u.port == p.key.port
  }

  /** The upstream is the exit of this snapshot. */
  ghost predicate IsExit(u: Upstream, snap: ExitSnapshot) {
    snap.exit.Some? && Is(u, snap.exit.value)
  }

  /** The exit a connection keeps, if there was one when it was accepted. */
  function Pinned(snap: ExitSnapshot): Option<Upstream> {
    match snap.exit
    case Some(p) => Some(FromStoreProxy(p))
    case None => None
  }
}
