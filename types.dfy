/** The records the capture front end passes around (types.ts). */
module Types {

  /** The five protocols a synthetic packet can carry. */
  datatype Protocol = TCP | UDP | HTTP | ICMP | TLS

  /** One captured packet. `payload` is text: two hexadecimal digits per captured byte. */
  datatype Packet = Packet(
    id: int,
    timestamp: int,
    sourceIp: string,
    sourcePort: int,
    destIp: string,
    destPort: int,
    protocol: Protocol,
    length: int,
    payload: string)

  /** A nullable value, as `Packet | null`. */
  datatype Option<T> = None | Some(value: T)

  function Min(a: int, b: int): int {
    if a <= b then a else b
  }
}
