/** The gateway priority model: the fields of a gateway that the portal code reads. */
module Gateways {

  /** Rust's `u32::MAX`. */
  const U32_MAX: int := 0xFFFF_FFFF

  /** Rust's `u32`. */
  type U32 = x: int | 0 <= x <= U32_MAX

  /** The region name of a priority rule that applies to every region. */
  const ANY_REGION: string := "Any"

  /** One region-scoped priority override; lower is more preferred. */
  datatype PriorityRule = PriorityRule(name: string, priority: U32)

  /** A connection target. `priority` is the baseline used when no rule applies. */
  datatype Gateway = Gateway(name: string, address: string, priority: U32, priorityRules: seq<PriorityRule>)

  /**
   * `Gateway::new(name, address)`. Its default priority and rules are not
   * part of this model; the placeholders below are never relied upon.
   */
  function NewGateway(name: string, address: string): (g: Gateway)
    ensures g.name == name && g.address == address
  {
    Gateway(name, address, 0, [])
  }
}
