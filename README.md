# Proxmox LXC manager: container listing model

This project is a Dafny model of the Proxmox VE client of the LXC manager desktop app
(`proxmox_ui_tauri/src-tauri/src/proxmox.rs`). It covers three things:

- how the client derives a container's IP address from its network-interface list;
- how it normalises the raw container records of the `/lxc` listing into `Container`
  values and returns them sorted by `vmid`;
- how it forms its `Authorization` header and reports the outcome of start, stop and delete.

Every HTTP request appears in the model as its outcome, an `Exchange<T>` value. Either the
request could not be sent (carrying the transport error's message), or a status came back
together with the result of decoding the JSON body (a decoded value or a decode error message).
The interface requests made for running containers are a function from `vmid` to such an outcome.
The lifecycle requests, whose body the client never reads, have their own outcome type
`ActionReply`: not sent, or a status.

Files:

- `wrappers.dfy`: `Option` and `Result`, with Rust's `unwrap_or` and `.ok()`.
- `format.dfy`: decimal rendering of integers (`format!("{}", n)`) and its inverse, a digit-prefix
  reader, and character search.
- `sortbykey.dfy`: `sort_by_key` as a stable insertion sort. It has a sequence specification and
  an in-place array method proved equal to it.
- `proxmox.dfy`: the client's data types and operations, with the properties proved about them.

Each lifecycle call (start, stop, delete) sends one request and returns a fixed message. The
address of a running container is looked up once per listing. There is no polling or retry loop
in `proxmox.rs`, and there is none in the model.

## Model

| member | source | states |
|---|---|---|
| Proxmox.AuthHeader | proxmox_ui_tauri/src-tauri/src/proxmox.rs:81-83 | The header starts with `PVEAPIToken=` and has room for exactly the token id, one `=` and the secret |
| Proxmox.AuthHeaderRoundTrip | proxmox_ui_tauri/src-tauri/src/proxmox.rs:81-83 | When the token id has no `=`, splitting the header at the first `=` after the scheme gives back exactly the token id and the secret |
| Proxmox.AuthHeaderAmbiguous | proxmox_ui_tauri/src-tauri/src/proxmox.rs:81-83 | Without that condition the header is ambiguous: id "a=b" with secret "c" and id "a" with secret "b=c" give the same header |
| Proxmox.StripCidr | proxmox_ui_tauri/src-tauri/src/proxmox.rs:156 | The result is the prefix of `inet` before its first `/` (the whole string when there is none), so it never contains `/` |
| Proxmox.AddressFromInterfaces | proxmox_ui_tauri/src-tauri/src/proxmox.rs:153-162 | The scan of a decoded interface list. Its own contract: the only error is "No IP found", and an address comes from a non-empty list and has no `/`. It is specified by AddressFromInterfacesSpec, AddressIsFirstQualifying, LoopbackNeverChosen and EarlierInterfaceWins |
| Proxmox.AddressIsFirstQualifying | proxmox_ui_tauri/src-tauri/src/proxmox.rs:153-158 | If interface k is the first that is not `lo` and has an `inet`, the address is that `inet` with its CIDR suffix stripped |
| Proxmox.AddressFromInterfacesSpec | proxmox_ui_tauri/src-tauri/src/proxmox.rs:153-162 | An address is found if and only if some interface qualifies; it comes from the first qualifying one; otherwise the error is exactly "No IP found" |
| Proxmox.AddressHasNoSlash | proxmox_ui_tauri/src-tauri/src/proxmox.rs:155-157 | A derived address never contains `/` |
| Proxmox.LoopbackNeverChosen | proxmox_ui_tauri/src-tauri/src/proxmox.rs:154 | Removing every interface named `lo` (even one with an `inet`) leaves the outcome unchanged |
| Proxmox.EarlierInterfaceWins | proxmox_ui_tauri/src-tauri/src/proxmox.rs:153-160 | For a list split as a+b: if a yields an address, that address is the result; otherwise b alone decides. Interfaces skipped by the scan do not stop it |
| Proxmox.ContainerIp | proxmox_ui_tauri/src-tauri/src/proxmox.rs:131-163 | `get_container_ip` as a function. It succeeds if and only if the request was answered 2xx, its body decoded, and the scan found an address; an address never contains `/`. The loop GetContainerIp is proved equal to it |
| Proxmox.GetContainerIp | proxmox_ui_tauri/src-tauri/src/proxmox.rs:131-163 | The loop with early return computes `ContainerIp`. Send failure gives "Failed to fetch IP: <cause>", a non-2xx status gives "Failed to get IP", a decode failure gives "Failed to parse interfaces"; otherwise the result is the interface scan's |
| Proxmox.DefaultName | proxmox_ui_tauri/src-tauri/src/proxmox.rs:114 | The default name starts with `CT-`, followed by at least one decimal digit and no leading zero |
| Proxmox.DefaultNameRoundTrip | proxmox_ui_tauri/src-tauri/src/proxmox.rs:114 | The digits after `CT-` read back as the vmid |
| Proxmox.DefaultNameInjective | proxmox_ui_tauri/src-tauri/src/proxmox.rs:114 | Distinct vmids get distinct default names |
| Proxmox.Normalize | proxmox_ui_tauri/src-tauri/src/proxmox.rs:112-124 | Builds one `Container`: vmid, status and the given address are passed through, and a missing name gets a `CT-` name. NormalizeDefaults states every default, and NormalizeRoundTrip gives it an inverse |
| Proxmox.NormalizeDefaults | proxmox_ui_tauri/src-tauri/src/proxmox.rs:112-124 | vmid, status and the given address are copied. A missing name becomes `CT-<vmid>`, missing counters become 0, missing cpus becomes 1, missing cpu becomes 0.0. Present fields are copied unchanged |
| Proxmox.NormalizeRoundTrip | proxmox_ui_tauri/src-tauri/src/proxmox.rs:112-124 | Normalising a record that reports every field loses nothing. Every container is the normalisation of the complete record built from it |
| Proxmox.AddressFor | proxmox_ui_tauri/src-tauri/src/proxmox.rs:106-110 | A container that is not "running" gets no address. An attached address never contains `/`. ContainerListEntries states the running case |
| Proxmox.NormalizeAll | proxmox_ui_tauri/src-tauri/src/proxmox.rs:104-125 | The loop's list before sorting: one entry per raw record, in order, with that record's vmid and status, and no address unless running |
| Proxmox.ContainerList | proxmox_ui_tauri/src-tauri/src/proxmox.rs:85-129 | `get_containers` as a function. It succeeds if and only if the listing request was answered 2xx with a decodable body, and then returns one entry per raw record sorted by vmid. Also specified by ContainerListIsSortedPermutation, ContainerListEntries and ListFailureIgnoresAddressLookups; the method GetContainers is proved equal to it |
| Proxmox.GetContainers | proxmox_ui_tauri/src-tauri/src/proxmox.rs:85-129 | The push loop and in-place sort compute `ContainerList`. Errors: send failure gives "Failed to fetch containers: <cause>", a non-2xx status gives "API error: <status>", a decode failure gives "Failed to parse response: <error>". Otherwise the result is the stable vmid-sort of the normalised records |
| Proxmox.ContainerListIsSortedPermutation | proxmox_ui_tauri/src-tauri/src/proxmox.rs:104-128 | A successful listing has one entry per raw record. It is a permutation (multiset equality) of the normalised records, sorted by non-decreasing vmid, and containers sharing a vmid keep their listing order |
| Proxmox.ContainerListEntries | proxmox_ui_tauri/src-tauri/src/proxmox.rs:105-124 | Every listed container is the normalisation of some raw record and has that record's vmid and status. It has no address unless its status is "running". When running, its address is the lookup's result, with any lookup error turned into no address |
| Proxmox.ListFailureIgnoresAddressLookups | proxmox_ui_tauri/src-tauri/src/proxmox.rs:85-110 | Whether the listing fails, and with which message, depends only on the listing request and never on any address lookup. It succeeds exactly on a 2xx status with a decodable body |
| Proxmox.ContainerAction | proxmox_ui_tauri/src-tauri/src/proxmox.rs:165-223 | Start, stop and delete succeed if and only if the request was sent and answered with a 2xx status. A failure message starts with "Failed to <verb> container: ". A success message starts with "Container " |
| Proxmox.ActionMessageRoundTrip | proxmox_ui_tauri/src-tauri/src/proxmox.rs:182-222 | The success message `Container <vmid> <started/stopped/deleted> successfully` reads back as exactly the action taken and the vmid it was taken on |
| Proxmox.ParsedMessageIsSuccessMessage | proxmox_ui_tauri/src-tauri/src/proxmox.rs:182-222 | Conversely, a message the parser accepts (canonical digits only) is exactly the success message of the action and vmid it reports |
| SortByKey.Sort | proxmox_ui_tauri/src-tauri/src/proxmox.rs:127 | The stable sort as an insertion sort on sequences; its contract gives the length. SortSpec states that the result is sorted, a permutation, and stable |
| SortByKey.SortSpec | proxmox_ui_tauri/src-tauri/src/proxmox.rs:127 | The sort's output is sorted by key, is a permutation of its input, has the same length, and keeps the relative order of the elements sharing a key (stable) |
| SortByKey.SortInPlace | proxmox_ui_tauri/src-tauri/src/proxmox.rs:127 | Sorting the vector's buffer in place leaves it equal to the stable sort of its old contents |
| SortByKey.InsertInPlace | proxmox_ui_tauri/src-tauri/src/proxmox.rs:127 | One insertion step on the array: `a[i]` moves left past the larger keys of the sorted prefix, leaving `a[..i+1]` equal to `Insert` of the old prefix and `a[i]`, and the rest of the array unchanged |
| Format.Decimal | proxmox_ui_tauri/src-tauri/src/proxmox.rs:114 | The decimal form of a number is non-empty and all digits. It has one digit exactly for numbers below 10, and a form longer than one digit never starts with `0` |
| Format.DecimalRoundTrip | proxmox_ui_tauri/src-tauri/src/proxmox.rs:114 | Reading the decimal form back gives the number |
| Format.CanonicalDecimalRoundTrip | proxmox_ui_tauri/src-tauri/src/proxmox.rs:114 | Conversely, a non-empty digit string with no leading zero is the decimal form of the number it reads as |

## Left out

- HTTP transport: the requests made with `reqwest`, the URLs they go to, and the header carried
  with them. The model takes each request's outcome as an input instead.
- JSON decoding with serde: bodies arrive already decoded, or as a decode error message.
- The text of transport errors and of a status code's display form (such as "404 Not Found") is
  not derived. Both are opaque strings inside the exchange.
- `ProxmoxClient::new`: reading the `.env` file, environment lookups and building the HTTP
  client (configuration and I/O). The client is a plain value holding host, node, token id and
  secret.
- `lib.rs`: the Tauri command wrappers and their mutex-guarded shared client. This is framework
  and concurrency plumbing.
- async/await: the listing loop is modelled sequentially. In the source, each running container's
  address lookup finishes before the next record is read, so the meaning is the same.
- The `cpu` field (`f64`) is carried as its IEEE-754 bit pattern. The client only copies it or
  defaults it to 0.0, which is the all-zero pattern, and never computes on it.
- SortByKey.SortInPlace: models `sort_by_key` as an insertion sort, not the standard library's own
  algorithm. Every stable sort produces the same output, so the result is the same.
- `Vec::push` is modelled as appending to a sequence. The sequence is copied into an array before
  it is sorted in place.
