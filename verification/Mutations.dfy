/** The value mutations a change-set collects. */
module Mutations {

  /** A deferred write to one cell: kind "set" with a raw value, or kind "remove". */
  datatype Mutation = Mutation(kind: string, attribute: string, entity: string, locale: string, channel: string, value: string)
}
