/** The port mapping record of common/accessor/site_env_option.go and its
    normalisation. */
module Accessor {
  import opened Strings

  /** One published port: `host` may carry the binding address as "ip:port". */
  datatype PortItem = PortItem(hostIp: string, host: string, dest: string, protocol: string)

  const DefaultProtocol: string := "tcp"

  /** PortItem.Parse: a fresh copy in which a host written "ip:port" is split
      at its first colon (text after a second colon is dropped) and an empty
      protocol becomes "tcp". The receiver is a value and is not changed. */
  function Parse(p: PortItem): (r: PortItem)
    ensures r.dest == p.dest
    ensures ':' !in p.host ==> r.hostIp == p.hostIp && r.host == p.host
    ensures ':' in p.host ==>
      var i := IndexOf(p.host, ':');
      && r.hostIp == p.host[..i]
      && ':' !in r.hostIp && ':' !in r.host
      && HasPrefix(p.host, r.hostIp + ":" + r.host)
      && (|r.hostIp| + 1 + |r.host| == |p.host| || p.host[|r.hostIp| + 1 + |r.host|] == ':')
    ensures r.protocol == (if p.protocol == "" then DefaultProtocol else p.protocol)
  {
    var split := if ':' in p.host then
        var parts := Split(p.host, ':');
        SplitHead(p.host, ':');
        p.(hostIp := parts[0], host := parts[1])
      else p;
    if split.protocol == "" then split.(protocol := DefaultProtocol) else split
  }

  /** After one Parse the host has no colon and the protocol is set, so a
      second Parse changes nothing. */
  lemma ParseIdempotent(p: PortItem)
    ensures ':' !in Parse(p).host && Parse(p).protocol != ""
    ensures Parse(Parse(p)) == Parse(p)
  {
  }
}
