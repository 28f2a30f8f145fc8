/** Addresses of servers. */
module Net {
  datatype Endpoint = Endpoint(host: string, port: nat)
}
