/** The limiter as the program runs it: a map that is erased from inside a
  loop, records updated in place, and a running total. */
module UdpProxyServer {
  import opened Limiter

  class UdpProxy {
    const config: Config
    var ipMap: IpMap
    /** A global counter in the program; only this class changes it. */
    var totalConnections: int

    ghost function View(): State
      reads this
    {
      State(ipMap, totalConnections)
    }

    constructor (config: Config)
      ensures this.config == config && View() == EMPTY
    {
      this.config := config;
      ipMap := map[];
      totalConnections := 0;
    }

    /** The loop visits the records in an arbitrary order and erases the stale
      ones as it goes. */
    method IsIpBlocked(ip: string, now: int) returns (blocked: bool)
      modifies this`ipMap
      ensures ipMap == AfterCheck(config, old(ipMap), ip, now)
      ensures blocked == Blocked(config, old(ipMap), ip, now)
    {
      if ip in config.excludedIps {
        return false;
      }
      ghost var all := ipMap;
      var pending := ipMap.Keys;
      while pending != {}
        invariant pending <= ipMap.Keys
        invariant ipMap == map k | k in all && (k in pending || !config.Stale(now, all[k])) :: all[k]
        decreases |pending|
      {
        var k :| k in pending;
        if config.Seconds(now - ipMap[k].stamp) > config.blockDurationMinutes * 60 {
          ipMap := ipMap - {k};
        }
        pending := pending - {k};
      }
      if ip !in ipMap {
        return false;
      }
      return ipMap[ip].count >= config.maxConnections;
    }

    method AddIpConnection(ip: string, now: int)
      modifies this`ipMap, this`totalConnections
      ensures View() == Add(config, old(View()), ip, now)
    {
      if ip in config.excludedIps {
        return;
      }
      if ip !in ipMap {
        ipMap := ipMap[ip := Entry(1, now)];
        totalConnections := totalConnections + 1;
      } else if ipMap[ip].count < config.maxConnections {
        ipMap := ipMap[ip := ipMap[ip].(count := ipMap[ip].count + 1)];
        ipMap := ipMap[ip := ipMap[ip].(stamp := now)];
        totalConnections := totalConnections + 1;
      }
    }

    /** The result says whether the packet goes on to be forwarded. */
    method HandleIncomingPacket(clientIp: string, checkTime: int, addTime: int) returns (admitted: bool)
      modifies this`ipMap, this`totalConnections
      ensures Outcome(View(), admitted) == Step(config, old(View()), Packet(clientIp, checkTime, addTime))
    {
      var blocked := IsIpBlocked(clientIp, checkTime);
      if blocked {
        return false;
      }
      AddIpConnection(clientIp, addTime);
      return true;
    }
  }
}
