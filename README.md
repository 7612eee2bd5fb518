# Banner address formatter of backpack

This project models `print_address`, the function that the backpack web
server's startup banner uses to show the address it listens on. It takes
a socket address and returns the text `IP:PORT` wrapped in the ANSI
escape for a green foreground (`ESC[32m`) and the escape that resets the
colours (`ESC[0m`). When the IP is a wildcard address, `0.0.0.0` or `::`,
it shows only `:PORT`.

The model is in three modules:

- `Wrappers` holds the `Option` type used by the parsers.
- `Decimal` renders a natural number as decimal text, standing in for
  Rust's `format!("{port}")`. It also reads decimal text back
  (`DecimalValue`) and proves the two are inverse. It proves that the
  rendering is the only digit string without a leading zero for its
  number, and it bounds the rendering's length.
- `Banner` holds the two colour constants, the wildcard test, the
  uncoloured part `Display` and `PrintAddress` itself. As a partner it
  has a reader, `ParseDisplay` / `ParseBanner`. The reader strips the
  colour codes, splits at the last `:` and reads a canonical `u16` port.
  Lemmas prove, for `Display` and for the whole banner, that reading
  the text back gives the shown IP and the port, and that the reader
  accepts only text of that form.

The IP enters the model as the text `addr.ip().to_string()` produces. The
port enters as `Port`, a natural number below 65536, because
`SocketAddr::port()` is a `u16`. Both functions are pure, so the result
depends only on the IP text and the port.

Notes on the source:

- The comment at `backpack/src/banner.rs:17` mentions only `0.0.0.0`.
  The condition on line 18 also covers `::`. The model follows the code.
- A non-wildcard IPv6 address is printed without brackets (`::1:3000`),
  because line 21 formats the bare IP rather than the `SocketAddr`. The
  model keeps this. `ParseDisplay` splits at the LAST colon, so such a
  banner still reads back to its IP and port.
- `serve` binds to `format!("{address}:{port}")` (`backpack/src/lib.rs:139`),
  but it always hands the banner the fixed text `"0.0.0.0:3000"`
  (`backpack/src/lib.rs:175`). A `serve` call with any other address or
  port therefore prints a banner that names an address the server is not
  bound to. The model covers `print_address` only, so this shows up only
  as the fixed input of `Banner.ServeBanner`.

## Model

| member | source | states |
|---|---|---|
| `Decimal.NatToDecimal` | backpack/src/banner.rs:19-21 | the port text is non-empty, all ASCII digits, with no leading zero unless it is the single digit `0`; it is one character exactly when the number is below 10 |
| `Decimal.DecimalRoundTrip` | backpack/src/banner.rs:19-21 | reading the rendered digits back as a decimal number gives the number that was rendered |
| `Decimal.CanonicalIsRendering` | backpack/src/banner.rs:19-21 | any digit string with no leading zero is the rendering of the number it denotes, so the rendering is the unique canonical decimal text |
| `Decimal.RenderingInjective` | backpack/src/banner.rs:19-21 | different numbers give different decimal texts |
| `Decimal.RenderingLength` | backpack/src/banner.rs:19-21 | a number below 10^k is rendered in at most k digits |
| `Banner.IsUnspecified` | backpack/src/banner.rs:18 | the wildcard test holds only of texts 2 to 7 characters long whose second character is not a digit, as is true of both `0.0.0.0` and `::` |
| `Banner.Display` | backpack/src/banner.rs:18-22 | for every IP, the display is the shown IP text (empty for a wildcard), then `:`, then the port's digits, which contain no `:`; its length is exactly the sum of those parts |
| `Banner.PrintAddress` | backpack/src/banner.rs:10-25 | the result starts with the green escape, ends with the reset escape, and holds exactly the display text between them |
| `Banner.PortRendering` | backpack/src/banner.rs:15-21 | a `u16` port is rendered as 1 to 5 digits, with no leading zero, and it starts with `0` exactly when the port is 0 |
| `Banner.WildcardHidesIp` | backpack/src/banner.rs:17-19 | for `0.0.0.0` and for `::` the display is `:` then the port, and the IP text occurs at no position in it |
| `Banner.OtherIpShown` | backpack/src/banner.rs:20-21 | for any other IP text the last `:` of the display is the one right after the IP, even when the IP text holds colons (IPv6), and reading the display back gives the IP text unchanged with the port |
| `Banner.DisplayRoundTrip` | backpack/src/banner.rs:13-22 | reading the display back gives the shown IP text (empty for a wildcard) and the port |
| `Banner.ParseDisplaySound` | backpack/src/banner.rs:18-22 | text the reader accepts as (host, port) is exactly host, `:`, and the port's canonical digits; it is the display of that host unless the host is a wildcard |
| `Banner.BannerRoundTrip` | backpack/src/banner.rs:13-25 | stripping the colour codes from the banner and reading it back gives the shown IP and the port |
| `Banner.ParseBannerSound` | backpack/src/banner.rs:13-25 | text the banner reader accepts as (host, port) is exactly the green escape, host, `:`, the port's canonical digits and the reset escape |
| `Banner.PrintAddressInjective` | backpack/src/banner.rs:13-25 | two addresses give the same banner if and only if they have the same port and the same shown IP text |
| `Banner.PortBeforeReset` | backpack/src/banner.rs:19-24 | the port's digits come right before the reset escape with `:` just before them; the banner is at most 6 characters longer than the shown IP plus the two escapes |
| `Banner.ServeBanner` | backpack/src/lib.rs:171-176 | for the fixed banner address `0.0.0.0:3000` that `serve` passes (which `print` parses and hands to `print_address`, banner.rs:28 and :44), the result is the green escape, `:3000`, and the reset escape |

## Left out

- `banner::print` (`backpack/src/banner.rs:27-46`): it writes to the
  console and parses the configured address with `SocketAddr::from_str`
  and `unwrap`. Console output is I/O, and the parser is standard-library
  code. `Banner.ServeBanner` covers only its call into `print_address`,
  with the IP and port of the literal `"0.0.0.0:3000"` written out.
- `IpAddr::to_string` and `SocketAddr::port`: these are standard-library
  calls. The model takes their results as inputs: the IP as text, the
  port as a number below 65536.
- `serve` (`backpack/src/lib.rs:131-201`): TCP binding, the OpenAPI and
  Scalar UI routes, the three console lines and the server loop are I/O
  and calls into the `tako` framework, which is not part of this model.
- `setup_router` (`backpack/src/lib.rs:118-128`): it only forwards each
  route's fields to `tako::Router`. That router's storage, duplicate
  rules and lookup are not part of this model.
- `generate_openapi_from_routes`, `VesperaOpenApiJson` and `Scalar`
  (`backpack/src/lib.rs:158-169`): the OpenAPI document and the UI page
  are built inside `tako`, which is not part of this model.
- `FnHandler`, `handler_fn` and `handler!` (`backpack/src/lib.rs:51-102`):
  async futures, `Arc` sharing and type erasure. They have no sequential
  behaviour to state.
- `ServerConfig::new` (`backpack/src/lib.rs:43-48`): a constructor that
  only sets default fields.
- `backpack/examples/openapi/src/main.rs`: route data and a call to
  `serve`, with no logic of its own.
