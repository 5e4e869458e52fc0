# Robot map service

A Dafny model of `RobotMapService`, the part of the Eufy robot vacuum
integration that keeps the robot's latest position, the latest house map
image and the time of the last position update, and answers the two
read-only queries the rest of the integration makes (a summary of the state,
and the map image as Base64 text).

- `options.dfy` — `Option`, the model of Python's `Optional[...]`.
- `base64.dfy` — module `Base64`: the encoder `base64.b64encode` applies to
  the map bytes, following section 4 of RFC 4648 (standard alphabet, `=`
  padding). It is written as two steps: bytes to 6-bit groups (`Sextets`,
  with pad symbols for a final partial quantum) and groups to characters
  (`Render`, Table 1 of RFC 4648). A strict decoder, `Decode`, is defined
  independently as the encoder's partner and proved to be its exact inverse.
- `map_service.dfy` — module `MapService`: the class `RobotMapService` with
  the fields `currentPosition`, `mapData` and `updateTimestamp`, the two
  mutating methods and the two queries. Time is a parameter of the
  mutating methods. A ghost field `mapBytes` remembers the raw bytes of the
  stored map so that the object invariant `Valid()` can say that the stored
  text is their Base64 encoding.

## Model

| member | source | states |
|---|---|---|
| `MapService.RobotMapService.constructor` | custom_components/robovac_mqtt/map_service.py:13-17 | the robot starts at (0, 0) with no map and no update timestamp, and the object invariant holds |
| `MapService.RobotMapService.UpdateRobotPosition` | custom_components/robovac_mqtt/map_service.py:19-27 | the position becomes exactly (x, y), the update timestamp becomes the given time, and the map (and its raw bytes) is unchanged |
| `MapService.RobotMapService.SetMapData` | custom_components/robovac_mqtt/map_service.py:30-41 | empty input changes nothing; non-empty input stores a record whose image is the Base64 encoding of exactly those bytes, stamped with the given time; position and update timestamp never change; a stored map is never cleared |
| `MapService.RobotMapService.GetMapState` | custom_components/robovac_mqtt/map_service.py:44-54 | reports the current position, `hasMap` exactly when a map is stored, and the update timestamp (none before the first position update) |
| `MapService.RobotMapService.GetMapImage` | custom_components/robovac_mqtt/map_service.py:56-62 | none exactly when no map is stored (in agreement with `GetMapState().hasMap`); otherwise the stored image text, which decodes back to the non-empty bytes that were stored and has length 4·⌈n/3⌉ |
| `Base64.Encode` | custom_components/robovac_mqtt/map_service.py:39 | the model of `base64.b64encode(map_bytes).decode('utf-8')`: the text is 4·⌈n/3⌉ characters long and every character is from the standard alphabet or is `=` |
| `Base64.Digit` | custom_components/robovac_mqtt/map_service.py:39 | every 6-bit value k is written as the character at index k of Table 1 of RFC 4648, spelled out as the constant `Table1`, which is in the standard alphabet |
| `Base64.GroupBits` | custom_components/robovac_mqtt/map_service.py:39 | the bit layout of section 4 of RFC 4648: the four 6-bit digits of a full group, most significant first, carry the same 24-bit number as its three octets |
| `Base64.FinalQuantumBits` | custom_components/robovac_mqtt/map_service.py:39 | a final single octet is followed by 4 zero bits and written as two digits and two pads; a final pair of octets is followed by 2 zero bits and written as three digits and one pad |
| `Base64.TestVectors` | custom_components/robovac_mqtt/map_service.py:39 | the encoder reproduces the test vectors of section 10 of RFC 4648: "", "Zg==", "Zm8=", "Zm9v", "Zm9vYg==", "Zm9vYmE=", "Zm9vYmFy" |
| `Base64.ValueOf` | custom_components/robovac_mqtt/map_service.py:39 | every alphabet character stands for the 6-bit value that is written as that character |
| `Base64.SextetsLength` | custom_components/robovac_mqtt/map_service.py:39 | n bytes become 4·⌈n/3⌉ output symbols |
| `Base64.EncodeLength` | custom_components/robovac_mqtt/map_service.py:39 | the encoding of n bytes is 4·⌈n/3⌉ characters long |
| `Base64.EncodeEmpty` | custom_components/robovac_mqtt/map_service.py:36-39 | the encoding is empty exactly when the input is, so a stored image is never empty text |
| `Base64.SextetsPadding` | custom_components/robovac_mqtt/map_service.py:39 | pad symbols appear only at the end: two when n mod 3 = 1, one when n mod 3 = 2, none otherwise |
| `Base64.EncodeAlphabet` | custom_components/robovac_mqtt/map_service.py:39 | every output character is from the standard alphabet or is `=`, and `=` occurs exactly at the padding positions above |
| `Base64.RoundTrip` | custom_components/robovac_mqtt/map_service.py:39 | decoding the encoding of any bytes gives back those bytes |
| `Base64.DecodeCanonical` | custom_components/robovac_mqtt/map_service.py:39 | any text the strict decoder accepts is exactly the encoding of what it returns |
| `Base64.DecodeIffEncode` | custom_components/robovac_mqtt/map_service.py:39 | `Decode(s) == Some(b)` if and only if `Encode(b) == s` |
| `Base64.EncodeInjective` | custom_components/robovac_mqtt/map_service.py:39 | two byte strings with the same encoding are equal, so the stored text identifies the image |

## Left out

- Logging (`_LOGGER.debug`, map_service.py lines 28 and 42): a side effect with nothing to state.
- The clock: `datetime.now()` is replaced by a `now` parameter of the mutating methods, and the ISO-8601 text that `isoformat()` produces (the map record's timestamp and the `timestamp` of `get_map_state`) is not modelled; the model stores and reports the clock reading itself.
- The `float(x)` coercion: coordinates are `real` values stored as given; floating-point rounding and non-numeric arguments are not modelled.
- Dictionaries: the position, the map record and the state summary are datatypes. `get_map_state` hands back the service's own position dictionary, so a caller that mutates it changes the service; that aliasing is not modelled.
- `set_map_data` tests `if map_bytes:`, so a `None` argument would also be ignored; the model takes a byte sequence, where only the empty one is ignored.
- `base64.b64decode` is not called by the service; `Base64.Decode` is a strict RFC 4648 decoder written only as the encoder's partner, and Python's lenient decoding of non-canonical text is not modelled.
- `MapService.RobotMapService.GetMapImage` requires the object invariant `Valid()`, which the constructor establishes and every method keeps; it is not a demand on the callers of `get_map_image`.
