/**
 Server and client configuration records with their defaults and the
 builder-style updates of `crates/common/src/config.rs`.
 */
module Config {
  import opened Text

  type u16 = x: int | 0 <= x < 0x1_0000
  type u64 = x: int | 0 <= x < 0x1_0000_0000_0000_0000

  datatype IpAddr = V4(a: byte, b: byte, c: byte, d: byte) | V6(segments: seq<u16>)

  datatype SocketAddr = SocketAddr(ip: IpAddr, port: u16)

  /** The value of the literal `"127.0.0.1:4433"` both defaults parse. */
  const DefaultAddr: SocketAddr := SocketAddr(V4(127, 0, 0, 1), 4433)

  datatype ServerConfig = ServerConfig(bindAddr: SocketAddr, certHostnames: seq<string>, idleTimeoutSecs: u64)

  datatype ClientConfig = ClientConfig(serverAddr: SocketAddr, serverName: string, insecure: bool)

  /** `ServerConfig::default()`. */
  function DefaultServerConfig(): (c: ServerConfig)
    ensures c.bindAddr == DefaultAddr
    ensures c.certHostnames == ["localhost"]
    ensures c.idleTimeoutSecs == 30
  {
    ServerConfig(DefaultAddr, ["localhost"], 30)
  }

  /** `ServerConfig::new(addr)`: the given address, every other field from the default. */
  function NewServerConfig(bindAddr: SocketAddr): (c: ServerConfig)
    ensures c.bindAddr == bindAddr
    ensures c.certHostnames == DefaultServerConfig().certHostnames
    ensures c.idleTimeoutSecs == DefaultServerConfig().idleTimeoutSecs
  {
    DefaultServerConfig().(bindAddr := bindAddr)
  }

  /** `with_hostnames`: replaces the certificate hostnames and nothing else. */
  function WithHostnames(c: ServerConfig, hostnames: seq<string>): (r: ServerConfig)
    ensures r.certHostnames == hostnames
    ensures r.bindAddr == c.bindAddr && r.idleTimeoutSecs == c.idleTimeoutSecs
  {
    c.(certHostnames := hostnames)
  }

  /** `with_idle_timeout`: replaces the idle timeout and nothing else. */
  function WithIdleTimeout(c: ServerConfig, secs: u64): (r: ServerConfig)
    ensures r.idleTimeoutSecs == secs
    ensures r.bindAddr == c.bindAddr && r.certHostnames == c.certHostnames
  {
    c.(idleTimeoutSecs := secs)
  }

  /** `ClientConfig::default()`. */
  function DefaultClientConfig(): (c: ClientConfig)
    ensures c.serverAddr == DefaultAddr
    ensures c.serverName == "localhost"
    ensures c.insecure
  {
    ClientConfig(DefaultAddr, "localhost", true)
  }

  /** `ClientConfig::new(addr, name)`: verification stays off, as in the default. */
  function NewClientConfig(serverAddr: SocketAddr, serverName: string): (c: ClientConfig)
    ensures c.serverAddr == serverAddr && c.serverName == serverName
    ensures c.insecure == DefaultClientConfig().insecure
  {
    DefaultClientConfig().(serverAddr := serverAddr, serverName := serverName)
  }

  /** `secure()`: turns certificate verification on and changes nothing else. */
  function Secure(c: ClientConfig): (r: ClientConfig)
    ensures !r.insecure
    ensures r.serverAddr == c.serverAddr && r.serverName == c.serverName
  {
    c.(insecure := false)
  }

  /** The two server builders touch disjoint fields, so their order does not matter. */
  lemma BuildersCommute(c: ServerConfig, hostnames: seq<string>, secs: u64)
    ensures WithIdleTimeout(WithHostnames(c, hostnames), secs) == WithHostnames(WithIdleTimeout(c, secs), hostnames)
  {
  }

  /** Applying `secure()` twice is the same as applying it once. */
  lemma SecureIdempotent(c: ClientConfig)
    ensures Secure(Secure(c)) == Secure(c)
  {
  }

  /** A client built by `new` and made secure differs from the default only where it was told to. */
  lemma SecureClientFromNew(serverAddr: SocketAddr, serverName: string)
    ensures Secure(NewClientConfig(serverAddr, serverName)) == ClientConfig(serverAddr, serverName, false)
  {
  }
}
