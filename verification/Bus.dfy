/** The events that nodes exchange over the coordination bus. */
module Bus {
  datatype BusEvent =
    | SessionInvalidateUser(userId: string)
    | SessionInvalidateToken(hashedToken: string)
    | WafRuleAdded(id: nat, pattern: string, tag: string)
    | WafRuleRemoved(id: nat)
}
