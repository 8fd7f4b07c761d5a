/**
 * The message record the store hands back (the `Message` interface of
 * lib/db.ts). The store itself (connection pool, SQL) is not part of this
 * model; the routes receive its answers as inputs.
 */
module Store {
  import opened Wrappers

  /** A stored message; `createdAt` and `isActive` are not read by the modelled routes. */
  datatype Message = Message(
    id: string,
    text: string,
    positionX: Option<real>,
    positionY: Option<real>,
    duration: Option<real>)
}
